/**
 * `PatientRepository` (data/PatientRepository.kt): the published list of patient
 * locations and the CSV file that backs it. Every mutation publishes a new list and
 * then rewrites the whole file from it.
 */
module Repository {
  import opened Wrappers
  import opened Text
  import opened Records
  import opened RecordList
  import opened CsvDocument

  /** Every record of the list can be written and read back. */
  predicate AllEncodable(fmt: CoordFormat, items: seq<PatientLocation>) {
    forall i :: 0 <= i < |items| ==> Encodable(fmt, items[i])
  }

  /** After `addOrUpdate` of writable records, the file reads back as the published list. */
  lemma UpsertReloads(fmt: CoordFormat, s: seq<PatientLocation>, p: PatientLocation)
    requires AllEncodable(fmt, s) && Encodable(fmt, p)
    ensures Decode(fmt, Encode(fmt, Upsert(s, p))) == Upsert(s, p)
  {
    var r := Upsert(s, p);
    UpsertMembers(s, p);
    forall i | 0 <= i < |r| ensures Encodable(fmt, r[i]) {
      assert r[i] in r;
    }
    DecodeEncode(fmt, r);
  }

  /** After `delete` from writable records, the file reads back as the published list. */
  lemma RemoveReloads(fmt: CoordFormat, s: seq<PatientLocation>, bil: int)
    requires AllEncodable(fmt, s)
    ensures Decode(fmt, Encode(fmt, Remove(s, bil))) == Remove(s, bil)
  {
    var r := Remove(s, bil);
    RemoveMembers(s, bil);
    forall i | 0 <= i < |r| ensures Encodable(fmt, r[i]) {
      assert r[i] in r;
    }
    DecodeEncode(fmt, r);
  }

  class PatientRepository {
    /** How coordinates are written and read. */
    const fmt: CoordFormat
    /** The bundled `patients.csv` asset, copied into storage on the first load. */
    const asset: string
    /** The contents of the storage file, or none while the file does not exist. */
    var storage: Option<string>
    /** The published list of records (`patients`). */
    var patients: seq<PatientLocation>

    /** A repository starts with an empty list; the storage file may already exist. */
    constructor(fmt: CoordFormat, asset: string, storage: Option<string>)
      ensures this.fmt == fmt && this.asset == asset
      ensures this.storage == storage && patients == []
    {
      this.fmt := fmt;
      this.asset := asset;
      this.storage := storage;
      patients := [];
    }

    /**
     * `load`: reads the storage file when it exists; otherwise copies the asset into
     * storage first. Either way the published list is what the file decodes to.
     */
    method Load()
      modifies this
      ensures storage == (if old(storage).Some? then old(storage) else Some(asset))
      ensures patients == Decode(fmt, storage.value)
    {
      var loaded;
      if storage.Some? {
        loaded := Decode(fmt, storage.value);
      } else {
        var text := asset;
        Persist(text);
        loaded := Decode(fmt, text);
      }
      patients := loaded;
    }

    /**
     * `addOrUpdate`: replaces the first record with the same `bil`, or appends the
     * record under `nextBil`, sorts by `bil`, publishes the list and writes it out.
     * The file then reads back as the published list whenever every record can be
     * written and read back. Unique identifiers stay unique exactly when the record
     * replaces one or the `bil` from `nextBil` is unused, which holds below the top
     * of the `Int` range.
     */
    method AddOrUpdate(patient: PatientLocation)
      modifies this
      ensures patients == Upsert(old(patients), patient)
      ensures SortedByBil(patients)
      ensures storage == Some(Encode(fmt, patients))
      ensures AllEncodable(fmt, old(patients)) && Encodable(fmt, patient)
              ==> Decode(fmt, storage.value) == patients
      ensures UniqueBils(old(patients)) && MaxBil(old(patients)).GetOr(0) < INT_MAX
              ==> UniqueBils(patients)
      ensures UniqueBils(old(patients))
              ==> (UniqueBils(patients) <==>
                   IndexOfFirst(old(patients), patient.bil) >= 0
                   || WithBil(old(patients), NextBil(old(patients))) == [])
    {
      ghost var before := patients;
      var nextList := patients;
      var index := IndexOfFirst(nextList, patient.bil);
      if index >= 0 {
        nextList := nextList[index := patient];
      } else {
        nextList := nextList + [patient.(bil := NextBil(nextList))];
      }
      var updated := SortByBil(nextList);
      assert updated == Upsert(before, patient);
      patients := updated;
      SaveToDisk(updated);

      if AllEncodable(fmt, before) && Encodable(fmt, patient) {
        UpsertReloads(fmt, before, patient);
      }
      if UniqueBils(before) {
        UpsertKeepsUnique(before, patient);
      }
    }

    /**
     * `delete`: drops every record with the given `bil`, publishes the rest in their
     * order and writes them out.
     */
    method Delete(bil: Int32)
      modifies this
      ensures patients == Remove(old(patients), bil)
      ensures forall i :: 0 <= i < |patients| ==> patients[i].bil != bil
      ensures storage == Some(Encode(fmt, patients))
      ensures AllEncodable(fmt, old(patients)) ==> Decode(fmt, storage.value) == patients
      ensures SortedByBil(old(patients)) ==> SortedByBil(patients)
      ensures UniqueBils(old(patients)) ==> UniqueBils(patients)
    {
      var updated := Remove(patients, bil);
      ghost var before := patients;
      patients := updated;
      SaveToDisk(updated);

      RemoveMembers(before, bil);
      forall i | 0 <= i < |updated| ensures updated[i].bil != bil {
        assert updated[i] in updated;
      }
      if AllEncodable(fmt, before) {
        RemoveReloads(fmt, before, bil);
      }
      if SortedByBil(before) {
        RemoveKeepsSorted(before, bil);
      }
      if UniqueBils(before) {
        RemoveKeepsUnique(before, bil);
      }
    }

    /** `saveToDisk`: writes the header and one line per record, in list order. */
    method SaveToDisk(items: seq<PatientLocation>)
      modifies this`storage
      ensures storage == Some(Encode(fmt, items))
    {
      var csv := BuildCsv(fmt, items);
      Persist(csv);
    }

    /** `persist`: replaces the storage file's contents. */
    method Persist(contents: string)
      modifies this`storage
      ensures storage == Some(contents)
    {
      storage := Some(contents);
    }
  }
}
