/** The `records` object store: `insertData` and `getPageData`.

    The store is its rows in primary-key order together with the key
    generator's next value. A row's `name` is ciphertext, and its `page` is
    plaintext because `pageIndex` is built on it. */
module Records {
  import opened Seqs
  import opened Text
  import opened Ciphers

  /** A plaintext `Record` handed to `insertData`. It carries no id, and its
      `page` is replaced by the page argument. */
  datatype Item = Item(name: string, page: int)

  /** An item after encryption, waiting for the key generator to give it an id. */
  datatype Pending = Pending(name: Bytes, page: int)

  /** A row as persisted. */
  datatype Row = Row(id: nat, name: Bytes, page: int)

  /** A `Record` as `getPageData` returns it, with its name decrypted. */
  datatype Record = Record(id: nat, name: string, page: int)

  /** The `records` object store (key path `id`, auto-increment). */
  datatype RecordStore = RecordStore(rows: seq<Row>, nextId: nat)

  /** The store as created by the upgrade callback: no rows, generator at 1. */
  const EmptyStore: RecordStore := RecordStore([], 1)

  predicate RowBefore(a: Row, b: Row)
  {
    a.id < b.id
  }

  predicate RecordBefore(a: Record, b: Record)
  {
    a.id < b.id
  }

  /** Ids are at least 1, below the generator's next value, and strictly
      increasing along the rows. */
  ghost predicate Valid(s: RecordStore)
  {
    && 1 <= s.nextId
    && (forall i :: 0 <= i < |s.rows| ==> 1 <= s.rows[i].id < s.nextId)
    && Ordered(s.rows, RowBefore)
  }

  /** The rows a batch should add: one per item, in input order, with
      consecutive ids from `firstId`, the encrypted name, and the page argument. */
  function NewRows(c: Cipher, firstId: nat, page: int, items: seq<Item>): seq<Row>
  {
    seq(|items|, i requires 0 <= i < |items| => Row(firstId + i, c.encrypt(items[i].name), page))
  }

  /** What reading the batch back should give: the plaintext items with their ids and page. */
  function Inserted(firstId: nat, page: int, items: seq<Item>): seq<Record>
  {
    seq(|items|, i requires 0 <= i < |items| => Record(firstId + i, items[i].name, page))
  }

  /** First phase of `insertData`: encrypt every name and force the page. */
  function EncryptItems(c: Cipher, page: int, items: seq<Item>): seq<Pending>
  {
    seq(|items|, i requires 0 <= i < |items| => Pending(c.encrypt(items[i].name), page))
  }

  /** `store.add` on an auto-increment store: the row takes the generator's value. */
  function Add(s: RecordStore, p: Pending): RecordStore
  {
    RecordStore(s.rows + [Row(s.nextId, p.name, p.page)], s.nextId + 1)
  }

  /** Second phase of `insertData`: one `add` per pending item, in order,
      inside one transaction. */
  function AddAll(s: RecordStore, pending: seq<Pending>): (s': RecordStore)
    ensures |s'.rows| == |s.rows| + |pending|
    ensures s'.rows[..|s.rows|] == s.rows
    ensures forall i :: 0 <= i < |pending| ==>
              s'.rows[|s.rows| + i] == Row(s.nextId + i, pending[i].name, pending[i].page)
    ensures s'.nextId == s.nextId + |pending|
    decreases |pending|
  {
    if |pending| == 0 then s
    else
      var s1 := Add(s, pending[0]);
      var s' := AddAll(s1, pending[1..]);
      assert s1.rows[..|s.rows|] == s.rows;
      assert s'.rows[..|s.rows|] == s1.rows[..|s1.rows|][..|s.rows|];
      s'
  }

  /** `insertData(page, items)`: the batch is appended after the existing rows,
      in input order, each row with a fresh id, the encrypted name and `page`;
      the store stays well formed. */
  function InsertData(c: Cipher, s: RecordStore, page: int, items: seq<Item>): (s': RecordStore)
    ensures s'.rows == s.rows + NewRows(c, s.nextId, page, items)
    ensures s'.nextId == s.nextId + |items|
    ensures Valid(s) ==> Valid(s')
  {
    var pending := EncryptItems(c, page, items);
    var s' := AddAll(s, pending);
    var added := NewRows(c, s.nextId, page, items);
    assert forall i :: 0 <= i < |items| ==> pending[i] == Pending(c.encrypt(items[i].name), page);
    assert forall i :: 0 <= i < |items| ==> s'.rows[|s.rows| + i] == added[i];
    assert s'.rows[|s.rows|..] == added;
    assert s'.rows == s'.rows[..|s.rows|] + s'.rows[|s.rows|..];
    s'
  }

  /** `pageIndex.getAll(IDBKeyRange.only(page))`: the rows whose page is exactly
      `page`. All of them share the index key, so they come in primary-key order. */
  function PageRows(rows: seq<Row>, page: int): seq<Row>
  {
    Filter(rows, OnPage(page))
  }

  function OnPage(page: int): Row -> bool
  {
    (r: Row) => r.page == page
  }

  function Decrypt(c: Cipher, r: Row): Record
  {
    Record(r.id, c.decrypt(r.name), r.page)
  }

  function DecryptAll(c: Cipher, rows: seq<Row>): seq<Record>
  {
    Map(rows, Decryptor(c))
  }

  function Decryptor(c: Cipher): Row -> Record
  {
    (r: Row) => Decrypt(c, r)
  }

  /** The search predicate: the lower-cased name contains the lower-cased term. */
  predicate NameMatches(r: Record, term: string)
  {
    Contains(LowerStr(r.name), LowerStr(term))
  }

  /** The search step: a non-empty term filters, the empty term keeps everything. */
  function SearchByName(records: seq<Record>, term: string): seq<Record>
  {
    if |term| > 0 then Filter(records, MatchesTerm(term)) else records
  }

  function MatchesTerm(term: string): Record -> bool
  {
    (r: Record) => NameMatches(r, term)
  }

  /** `getPageData(page, searchTerm)`: every record returned is a decrypted row of
      `page` whose name matches the term, and in a well-formed store they come in
      strictly increasing id order. */
  function GetPageData(c: Cipher, s: RecordStore, page: int, term: string): (r: seq<Record>)
    ensures forall i :: 0 <= i < |r| ==> r[i].page == page && NameMatches(r[i], term)
    ensures |term| == 0 ==> |r| == |PageRows(s.rows, page)|
    ensures Valid(s) ==> Ordered(r, RecordBefore)
  {
    var decrypted := DecryptAll(c, PageRows(s.rows, page));
    DecryptedRowsOnPage(c, s.rows, page);
    SearchKeepsMatches(decrypted, term);
    SearchByName(decrypted, term)
  }

  /** The search step keeps, in order, exactly the records whose name matches;
      in particular, everything it returns matches and comes from its input. */
  lemma SearchKeepsMatches(records: seq<Record>, term: string)
    ensures IsSubseq(SearchByName(records, term), records)
    ensures forall i :: 0 <= i < |SearchByName(records, term)| ==>
              SearchByName(records, term)[i] in records && NameMatches(SearchByName(records, term)[i], term)
    ensures forall i :: 0 <= i < |records| && NameMatches(records[i], term) ==>
              records[i] in SearchByName(records, term)
    ensures Ordered(records, RecordBefore) ==> Ordered(SearchByName(records, term), RecordBefore)
  {
    if |term| == 0 {
      SubseqReflexive(records);
      forall i | 0 <= i < |records|
        ensures NameMatches(records[i], term)
      {
        EmptyTermFound(records[i].name);
      }
    }
    if Ordered(records, RecordBefore) {
      SubseqOrdered(SearchByName(records, term), records, RecordBefore);
    }
  }

  /** The decrypted page rows all sit on `page`, and they keep the rows' id order. */
  lemma DecryptedRowsOnPage(c: Cipher, rows: seq<Row>, page: int)
    ensures forall i :: 0 <= i < |DecryptAll(c, PageRows(rows, page))| ==>
              DecryptAll(c, PageRows(rows, page))[i].page == page
    ensures Ordered(rows, RowBefore) ==>
              Ordered(DecryptAll(c, PageRows(rows, page)), RecordBefore)
  {
    if Ordered(rows, RowBefore) {
      SubseqOrdered(PageRows(rows, page), rows, RowBefore);
    }
  }

  /** A record is on a page read exactly when it is the decryption of a stored
      row of that page and its name matches the term; no field but the name is
      changed on the way. */
  lemma PageDataMembers(c: Cipher, s: RecordStore, page: int, term: string, x: Record)
    ensures x in GetPageData(c, s, page, term) <==>
              (exists j :: 0 <= j < |s.rows| && StoredOnPage(c, s.rows[j], page, x))
              && NameMatches(x, term)
  {
    if x in GetPageData(c, s, page, term) {
      PageDataSound(c, s, page, term, x);
    }
    if (exists j :: 0 <= j < |s.rows| && StoredOnPage(c, s.rows[j], page, x)) && NameMatches(x, term) {
      var j :| 0 <= j < |s.rows| && StoredOnPage(c, s.rows[j], page, x);
      PageDataComplete(c, s, page, term, j);
    }
  }

  /** `x` is what row `r` of page `page` decrypts to. */
  predicate StoredOnPage(c: Cipher, r: Row, page: int, x: Record)
  {
    r.page == page && x == Decrypt(c, r)
  }

  lemma PageDataSound(c: Cipher, s: RecordStore, page: int, term: string, x: Record)
    requires x in GetPageData(c, s, page, term)
    ensures exists j :: 0 <= j < |s.rows| && StoredOnPage(c, s.rows[j], page, x)
  {
    var decrypted := DecryptAll(c, PageRows(s.rows, page));
    DecryptedRowsOnPage(c, s.rows, page);
    SearchKeepsMatches(decrypted, term);
    assert x in SearchByName(decrypted, term);
    var k :| 0 <= k < |decrypted| && decrypted[k] == x;
    DecryptedRowStored(c, s.rows, page, k);
  }

  /** The k-th record of a decrypted page is the decryption of a stored row of that page. */
  lemma DecryptedRowStored(c: Cipher, rows: seq<Row>, page: int, k: int)
    requires 0 <= k < |PageRows(rows, page)|
    ensures exists j :: 0 <= j < |rows| && StoredOnPage(c, rows[j], page, DecryptAll(c, PageRows(rows, page))[k])
  {
    var onPage := PageRows(rows, page);
    assert onPage[k].page == page && onPage[k] in rows;
    var j :| 0 <= j < |rows| && rows[j] == onPage[k];
    assert StoredOnPage(c, rows[j], page, DecryptAll(c, onPage)[k]);
  }

  lemma PageDataComplete(c: Cipher, s: RecordStore, page: int, term: string, j: int)
    requires 0 <= j < |s.rows| && s.rows[j].page == page
    requires NameMatches(Decrypt(c, s.rows[j]), term)
    ensures Decrypt(c, s.rows[j]) in GetPageData(c, s, page, term)
  {
    var rows := PageRows(s.rows, page);
    var decrypted := DecryptAll(c, rows);
    DecryptedRowsOnPage(c, s.rows, page);
    SearchKeepsMatches(decrypted, term);
    assert OnPage(page)(s.rows[j]);
    var k :| 0 <= k < |rows| && rows[k] == s.rows[j];
    assert decrypted[k] == Decrypt(c, s.rows[j]);
  }

  /** Searching narrows the unfiltered page: the result is a subsequence of it
      holding exactly its records whose lower-cased name contains the
      lower-cased term. */
  lemma SearchIsSubsequence(c: Cipher, s: RecordStore, page: int, term: string)
    ensures IsSubseq(GetPageData(c, s, page, term), GetPageData(c, s, page, ""))
    ensures forall x :: x in GetPageData(c, s, page, term) <==>
              x in GetPageData(c, s, page, "") && NameMatches(x, term)
  {
    var decrypted := DecryptAll(c, PageRows(s.rows, page));
    DecryptedRowsOnPage(c, s.rows, page);
    SearchKeepsMatches(decrypted, term);
    SearchKeepsMatches(decrypted, "");
    assert GetPageData(c, s, page, "") == decrypted;
  }

  /** `searchTerm ? filter : data` could always filter: every name contains the empty term. */
  lemma EmptyTermKeepsEverything(records: seq<Record>)
    ensures Filter(records, MatchesTerm("")) == records
  {
    forall i | 0 <= i < |records|
      ensures MatchesTerm("")(records[i])
    {
      EmptyTermFound(records[i].name);
    }
    FilterKeepsAll(records, MatchesTerm(""));
  }

  lemma SearchConcat(a: seq<Record>, b: seq<Record>, term: string)
    ensures SearchByName(a + b, term) == SearchByName(a, term) + SearchByName(b, term)
  {
    if |term| > 0 {
      FilterConcat(a, b, MatchesTerm(term));
    }
  }

  /** Inserting a batch leaves the rows of every other page exactly as they were. */
  lemma InsertLeavesOtherPages(c: Cipher, s: RecordStore, page: int, items: seq<Item>, other: int)
    requires other != page
    ensures PageRows(InsertData(c, s, page, items).rows, other) == PageRows(s.rows, other)
    ensures forall term :: GetPageData(c, InsertData(c, s, page, items), other, term)
                           == GetPageData(c, s, other, term)
  {
    var added := NewRows(c, s.nextId, page, items);
    FilterConcat(s.rows, added, OnPage(other));
    FilterKeepsNone(added, OnPage(other));
    assert PageRows(s.rows + added, other) == PageRows(s.rows, other) + [];
  }

  /** The page written to gains exactly the batch's rows, after the rows it had. */
  lemma InsertThenPageRows(c: Cipher, s: RecordStore, page: int, items: seq<Item>)
    ensures PageRows(InsertData(c, s, page, items).rows, page)
            == PageRows(s.rows, page) + NewRows(c, s.nextId, page, items)
  {
    var added := NewRows(c, s.nextId, page, items);
    FilterConcat(s.rows, added, OnPage(page));
    FilterKeepsAll(added, OnPage(page));
  }

  /** Read-back after insert: reading the page gives what was there before,
      followed by the batch in input order with fresh ids, page `page` and the
      original plaintext names (searched like every other record). */
  lemma InsertThenRead(c: Cipher, s: RecordStore, page: int, items: seq<Item>, term: string)
    requires RoundTrips(c)
    ensures GetPageData(c, InsertData(c, s, page, items), page, term)
            == GetPageData(c, s, page, term) + SearchByName(Inserted(s.nextId, page, items), term)
  {
    var added := NewRows(c, s.nextId, page, items);
    InsertThenPageRows(c, s, page, items);
    MapConcat(PageRows(s.rows, page), added, Decryptor(c));
    assert DecryptAll(c, added) == Inserted(s.nextId, page, items) by {
      forall i | 0 <= i < |items|
        ensures DecryptAll(c, added)[i] == Inserted(s.nextId, page, items)[i]
      {
        assert c.decrypt(c.encrypt(items[i].name)) == items[i].name;
      }
    }
    SearchConcat(DecryptAll(c, PageRows(s.rows, page)), Inserted(s.nextId, page, items), term);
  }

  /** Every id the batch receives is larger than every id already stored. */
  lemma InsertIdsAreFresh(c: Cipher, s: RecordStore, page: int, items: seq<Item>)
    requires Valid(s)
    ensures var s' := InsertData(c, s, page, items);
            forall i, j :: 0 <= i < |s.rows| <= j < |s'.rows| ==> s.rows[i].id < s'.rows[j].id
  {
  }

  /** Three names inserted on page 1 of a fresh store (one item claiming page 5)
      read back in insertion order; searching "alpha" keeps "Alpha" and "Alpha2";
      page 2 is empty. */
  lemma AlphaBetaScenario(c: Cipher)
    requires RoundTrips(c)
    ensures var s := InsertData(c, EmptyStore, 1, [Item("Alpha", 1), Item("Beta", 5), Item("Alpha2", 1)]);
            && GetPageData(c, s, 1, "") == [Record(1, "Alpha", 1), Record(2, "Beta", 1), Record(3, "Alpha2", 1)]
            && GetPageData(c, s, 1, "alpha") == [Record(1, "Alpha", 1), Record(3, "Alpha2", 1)]
            && GetPageData(c, s, 2, "") == []
  {
    var items := [Item("Alpha", 1), Item("Beta", 5), Item("Alpha2", 1)];
    var all := [Record(1, "Alpha", 1), Record(2, "Beta", 1), Record(3, "Alpha2", 1)];
    assert Inserted(1, 1, items) == all;
    InsertThenRead(c, EmptyStore, 1, items, "");
    InsertThenRead(c, EmptyStore, 1, items, "alpha");
    InsertLeavesOtherPages(c, EmptyStore, 1, items, 2);
    EmptyStoreReadsEmpty(c, 1, "");
    EmptyStoreReadsEmpty(c, 1, "alpha");
    EmptyStoreReadsEmpty(c, 2, "");
    AlphaSearch();
  }

  lemma EmptyStoreReadsEmpty(c: Cipher, page: int, term: string)
    ensures GetPageData(c, EmptyStore, page, term) == []
  {
  }

  lemma AlphaSearch()
    ensures SearchByName([Record(1, "Alpha", 1), Record(2, "Beta", 1), Record(3, "Alpha2", 1)], "alpha")
            == [Record(1, "Alpha", 1), Record(3, "Alpha2", 1)]
  {
    var all := [Record(1, "Alpha", 1), Record(2, "Beta", 1), Record(3, "Alpha2", 1)];
    assert LowerStr("alpha") == "alpha";
    assert LowerStr("Alpha") == "alpha";
    assert LowerStr("Beta") == "beta";
    assert LowerStr("Alpha2") == "alpha2";
    assert NameMatches(all[0], "alpha") by {
      assert OccursAt("alpha", "alpha", 0);
    }
    assert !NameMatches(all[1], "alpha");
    assert NameMatches(all[2], "alpha") by {
      assert OccursAt("alpha2", "alpha", 0);
    }
    assert all[1..][1..] == [all[2]];
    assert Filter([all[2]], MatchesTerm("alpha")) == [all[2]];
    assert Filter(all[1..], MatchesTerm("alpha")) == [all[2]];
  }
}
