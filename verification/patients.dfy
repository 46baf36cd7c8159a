/** The `patientRecords` object store and `getAllPatientRecords`.

    Nothing in the program writes this store any more, so it is taken as given.
    It is represented by what a scan of `createdAtIndex` returns: the rows
    ordered by `createdAt` (compared as IndexedDB compares strings), ties broken
    by primary key. `name` and `diagnosis` are ciphertext. */
module Patients {
  import opened Seqs
  import opened Text
  import opened Ciphers

  /** A row as persisted. */
  datatype PatientRow = PatientRow(id: nat, name: Bytes, diagnosis: Bytes, createdAt: string)

  /** A `PatientRecord` as `getAllPatientRecords` returns it. */
  datatype PatientRecord = PatientRecord(id: nat, name: string, diagnosis: string, createdAt: string)

  /** The store, as the `createdAtIndex` scan lists it, with the key generator's next value. */
  datatype PatientStore = PatientStore(indexed: seq<PatientRow>, nextId: nat)

  /** The store as created by the upgrade callback. */
  const EmptyPatientStore: PatientStore := PatientStore([], 1)

  /** Index order on `createdAtIndex` keys: by `createdAt`, then by primary key. */
  predicate KeyBefore(createdAt: string, id: nat, createdAt': string, id': nat)
  {
    StrLess(createdAt, createdAt') || (createdAt == createdAt' && id < id')
  }

  predicate IndexBefore(a: PatientRow, b: PatientRow)
  {
    KeyBefore(a.createdAt, a.id, b.createdAt, b.id)
  }

  /** Decryption keeps `createdAt` and `id`, so records are ordered by the same key. */
  predicate RecordIndexBefore(a: PatientRecord, b: PatientRecord)
  {
    KeyBefore(a.createdAt, a.id, b.createdAt, b.id)
  }

  /** Ids are at least 1 and below the generator's next value; the scan is in index order. */
  ghost predicate Valid(s: PatientStore)
  {
    && 1 <= s.nextId
    && (forall i :: 0 <= i < |s.indexed| ==> 1 <= s.indexed[i].id < s.nextId)
    && Ordered(s.indexed, IndexBefore)
  }

  function DecryptPatient(c: Cipher, r: PatientRow): PatientRecord
  {
    PatientRecord(r.id, c.decrypt(r.name), c.decrypt(r.diagnosis), r.createdAt)
  }

  function PatientDecryptor(c: Cipher): PatientRow -> PatientRecord
  {
    (r: PatientRow) => DecryptPatient(c, r)
  }

  /** Every row of the scan, decrypted, in scan order. */
  function DecryptPatients(c: Cipher, rows: seq<PatientRow>): seq<PatientRecord>
  {
    Map(rows, PatientDecryptor(c))
  }

  /** The search predicate: the lower-cased name or the lower-cased diagnosis
      contains the lower-cased term. */
  predicate PatientMatches(r: PatientRecord, term: string)
  {
    Contains(LowerStr(r.name), LowerStr(term)) || Contains(LowerStr(r.diagnosis), LowerStr(term))
  }

  function PatientMatchesTerm(term: string): PatientRecord -> bool
  {
    (r: PatientRecord) => PatientMatches(r, term)
  }

  /** The decrypted scan after the search step: a subsequence of it holding
      exactly the records that match the term. */
  function FilteredPatients(c: Cipher, s: PatientStore, term: string): (r: seq<PatientRecord>)
    ensures IsSubseq(r, DecryptPatients(c, s.indexed))
    ensures forall i :: 0 <= i < |r| ==> PatientMatches(r[i], term)
    ensures forall i :: 0 <= i < |r| ==> r[i] in DecryptPatients(c, s.indexed)
    ensures forall i :: 0 <= i < |s.indexed| && PatientMatches(DecryptPatient(c, s.indexed[i]), term) ==>
              DecryptPatient(c, s.indexed[i]) in r
  {
    var decrypted := DecryptPatients(c, s.indexed);
    assert forall i :: 0 <= i < |s.indexed| ==> decrypted[i] == DecryptPatient(c, s.indexed[i]);
    if |term| > 0 then
      Filter(decrypted, PatientMatchesTerm(term))
    else
      EveryPatientMatchesEmpty(decrypted);
      SubseqReflexive(decrypted);
      decrypted
  }

  lemma EveryPatientMatchesEmpty(records: seq<PatientRecord>)
    ensures forall i :: 0 <= i < |records| ==> PatientMatches(records[i], "")
  {
    forall i | 0 <= i < |records|
      ensures PatientMatches(records[i], "")
    {
      EmptyTermFound(records[i].name);
    }
  }

  /** `getAllPatientRecords(searchTerm, page, pageSize)`: the filtered records
      from offset `(page - 1) * pageSize`, at most `pageSize` of them. Page 0
      and page size 0 give nothing. */
  function GetAllPatientRecords(c: Cipher, s: PatientStore, term: string, page: int, pageSize: int)
    : (r: seq<PatientRecord>)
    ensures page >= 1 && pageSize >= 0 ==>
              var filtered, start := FilteredPatients(c, s, term), (page - 1) * pageSize;
              0 <= start && r == filtered[Min(start, |filtered|)..Min(start + pageSize, |filtered|)]
    ensures page >= 1 && pageSize >= 0 ==> |r| <= pageSize
    ensures page == 0 || pageSize == 0 ==> r == []
  {
    Paginate(FilteredPatients(c, s, term), page, pageSize)
  }

  /** A record survives the search step exactly when it is a decrypted row of
      the scan whose name or diagnosis matches; the empty term keeps the whole
      scan in index order. */
  lemma PatientFilterMembers(c: Cipher, s: PatientStore, term: string, x: PatientRecord)
    ensures x in FilteredPatients(c, s, term) <==>
              x in DecryptPatients(c, s.indexed) && PatientMatches(x, term)
    ensures FilteredPatients(c, s, "") == DecryptPatients(c, s.indexed)
  {
    var decrypted := DecryptPatients(c, s.indexed);
    if x in decrypted && PatientMatches(x, term) {
      var i :| 0 <= i < |decrypted| && decrypted[i] == x;
      assert DecryptPatient(c, s.indexed[i]) == x;
    }
  }

  /** How many records a page holds: none once the offset reaches the end of
      the filtered records, otherwise `pageSize` or whatever is left. */
  lemma PageLength(c: Cipher, s: PatientStore, term: string, page: int, pageSize: int)
    requires page >= 1 && pageSize >= 0
    ensures var n := |FilteredPatients(c, s, term)|;
            var start := (page - 1) * pageSize;
            |GetAllPatientRecords(c, s, term, page, pageSize)|
              == if start >= n then 0 else Min(pageSize, n - start)
  {
  }

  /** With the default arguments (page 1, page size 10) the call returns the
      first ten filtered records, or all of them when there are fewer. */
  lemma DefaultCallReturnsFirstTen(c: Cipher, s: PatientStore, term: string)
    ensures var filtered := FilteredPatients(c, s, term);
            GetAllPatientRecords(c, s, term, 1, 10) == filtered[..Min(10, |filtered|)]
  {
  }

  /** In a well-formed store every page lists its records in index order. */
  lemma PageInIndexOrder(c: Cipher, s: PatientStore, term: string, page: int, pageSize: int)
    requires Valid(s)
    ensures Ordered(GetAllPatientRecords(c, s, term, page, pageSize), RecordIndexBefore)
  {
    var decrypted := DecryptPatients(c, s.indexed);
    assert Ordered(decrypted, RecordIndexBefore) by {
      forall i, j | 0 <= i < j < |decrypted|
        ensures RecordIndexBefore(decrypted[i], decrypted[j])
      {
        assert IndexBefore(s.indexed[i], s.indexed[j]);
      }
    }
    var filtered := FilteredPatients(c, s, term);
    SubseqOrdered(filtered, decrypted, RecordIndexBefore);
    PaginateOrdered(filtered, page, pageSize, RecordIndexBefore);
  }

  /** 25 matching records, pages of 10: page 2 holds records 11 to 20 and
      page 3 holds records 21 to 25, five of them. */
  lemma TwentyFiveRecordsScenario(c: Cipher, s: PatientStore, term: string)
    requires |FilteredPatients(c, s, term)| == 25
    ensures var filtered := FilteredPatients(c, s, term);
            && GetAllPatientRecords(c, s, term, 2, 10) == filtered[10..20]
            && GetAllPatientRecords(c, s, term, 3, 10) == filtered[20..25]
            && |GetAllPatientRecords(c, s, term, 3, 10)| == 5
            && GetAllPatientRecords(c, s, term, 4, 10) == []
  {
  }

  /** Below page 1 the offset turns negative and `slice` counts it from the end:
      with 25 matching records and pages of 10, page 0 is empty but page -1
      returns records 6 to 15. */
  lemma NegativePageCountsFromEnd(c: Cipher, s: PatientStore, term: string)
    requires |FilteredPatients(c, s, term)| == 25
    ensures var filtered := FilteredPatients(c, s, term);
            && GetAllPatientRecords(c, s, term, 0, 10) == []
            && GetAllPatientRecords(c, s, term, -1, 10) == filtered[5..15]
  {
  }

  /** Number of pages the pager shows for `total` records, 10 to a page. */
  function PageCount(total: nat): nat
  {
    (total + 9) / 10
  }

  /** The total that the patient page computes: the length of a call made with
      the default page and page size, so never more than 10. */
  function TotalCountAsWritten(c: Cipher, s: PatientStore, term: string): (n: nat)
    ensures n == Min(10, |FilteredPatients(c, s, term)|)
  {
    |GetAllPatientRecords(c, s, term, 1, 10)|
  }

  /** With 25 matching records the pager is told there are 10, shows one page,
      and the records from the 11th on can never be reached. */
  lemma TotalCountAsWrittenHidesRecords(c: Cipher, s: PatientStore, term: string)
    requires |FilteredPatients(c, s, term)| == 25
    ensures TotalCountAsWritten(c, s, term) == 10
    ensures PageCount(TotalCountAsWritten(c, s, term)) == 1
    ensures PagesThrough(FilteredPatients(c, s, term), PageCount(TotalCountAsWritten(c, s, term)), 10)
            == FilteredPatients(c, s, term)[..10]
    ensures PagesThrough(FilteredPatients(c, s, term), PageCount(TotalCountAsWritten(c, s, term)), 10)
            != FilteredPatients(c, s, term)
  {
    PagesFormPrefix(FilteredPatients(c, s, term), 1, 10);
  }

  /** The intended total: the number of records matching the term. */
  function TotalCount(c: Cipher, s: PatientStore, term: string): (n: nat)
    ensures n == |FilteredPatients(c, s, term)|
    ensures n == |GetAllPatientRecords(c, s, term, 1, n)|
  {
    |FilteredPatients(c, s, term)|
  }

  /** With the intended total the pager's pages, read one after another, give
      back every matching record exactly once and in order. */
  lemma TotalCountCoversAllRecords(c: Cipher, s: PatientStore, term: string)
    ensures PagesThrough(FilteredPatients(c, s, term), PageCount(TotalCount(c, s, term)), 10)
            == FilteredPatients(c, s, term)
  {
    var n := TotalCount(c, s, term);
    PagesFormPrefix(FilteredPatients(c, s, term), PageCount(n), 10);
    assert PageCount(n) * 10 >= n;
  }
}
