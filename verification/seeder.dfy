/** `populateDatabase`: the start-up seeding of the `records` store. For pages
    1 to 10 in turn, a page that reads back empty receives 1000 synthetic
    records named "Item i on Page p"; a page that already has rows is left
    alone. Emptiness is the only gate, so seeding again changes nothing. */
module Seeder {
  import opened Seqs
  import opened Text
  import opened Ciphers
  import opened Records
  import opened Loops

  const FirstPage: nat := 1
  const LastPage: nat := 10
  const RecordsPerPage: nat := 1000

  /** The template literal `Item ${i} on Page ${page}`. */
  function SeedName(i: nat, page: nat): string
  {
    "Item " + NatToString(i) + " on Page " + NatToString(page)
  }

  /** The 1000 items made for `page`, numbered from 1. */
  function SeedItems(page: nat): seq<Item>
  {
    seq(RecordsPerPage, i requires 0 <= i < RecordsPerPage => Item(SeedName(i + 1, page), page))
  }

  /** One iteration of the loop: read the page, and insert the batch only if it is empty. */
  function SeedPage(c: Cipher, s: RecordStore, page: nat): RecordStore
  {
    if |GetPageData(c, s, page, "")| == 0 then InsertData(c, s, page, SeedItems(page)) else s
  }

  function SeedStep(c: Cipher): (RecordStore, nat) -> RecordStore
  {
    (s: RecordStore, page: nat) => SeedPage(c, s, page)
  }

  /** The loop from `page` up to the last page. */
  function SeedFrom(c: Cipher, s: RecordStore, page: nat): RecordStore
  {
    Iterate(SeedStep(c), s, page, LastPage)
  }

  /** `populateDatabase`, applied to the `records` store. */
  function PopulateDatabase(c: Cipher, s: RecordStore): (s': RecordStore)
    ensures Valid(s) ==> Valid(s')
    ensures forall page: nat :: FirstPage <= page <= LastPage ==> |PageRows(s'.rows, page)| > 0
  {
    SeedFromFrame(c, s, FirstPage);
    SeedFromValid(c, s, FirstPage);
    SeedFrom(c, s, FirstPage)
  }

  /** Reading `page` gives the seeded records: exactly 1000 of them on `page`,
      the i-th (from 0) named "Item i+1 on Page page". */
  ghost predicate Seeded(c: Cipher, s: RecordStore, page: nat)
  {
    var r := GetPageData(c, s, page, "");
    && |r| == RecordsPerPage
    && forall i :: 0 <= i < |r| ==> r[i].name == SeedName(i + 1, page) && r[i].page == page
  }

  /** Different numbers give different names: both names share the text
      around the number, so the numbers print the same, and numbers print
      injectively. */
  lemma SeedNameInjective(i: nat, j: nat, page: nat)
    requires SeedName(i, page) == SeedName(j, page)
    ensures i == j
  {
    ConcatCancel("Item ", NatToString(i), NatToString(j), " on Page ", NatToString(page));
    NatToStringInjective(i, j);
  }

  /** A seeded page holds no two records with the same name. */
  lemma SeededNamesDistinct(c: Cipher, s: RecordStore, page: nat)
    requires Seeded(c, s, page)
    ensures forall i, j :: 0 <= i < j < |GetPageData(c, s, page, "")| ==>
              GetPageData(c, s, page, "")[i].name != GetPageData(c, s, page, "")[j].name
  {
    SeedNamesDistinct(GetPageData(c, s, page, ""), page);
  }

  lemma SeedNamesDistinct(r: seq<Record>, page: nat)
    requires forall i :: 0 <= i < |r| ==> r[i].name == SeedName(i + 1, page)
    ensures forall i, j :: 0 <= i < j < |r| ==> r[i].name != r[j].name
  {
    forall i, j | 0 <= i < j < |r|
      ensures r[i].name != r[j].name
    {
      if r[i].name == r[j].name {
        SeedNameInjective(i + 1, j + 1, page);
      }
    }
  }

  /** Reads of a page depend only on that page's rows. */
  lemma SameRowsSameRead(c: Cipher, s: RecordStore, t: RecordStore, page: int)
    requires PageRows(s.rows, page) == PageRows(t.rows, page)
    ensures forall term :: GetPageData(c, s, page, term) == GetPageData(c, t, page, term)
  {
  }

  /** The loop step's emptiness test is a test on the page's rows. */
  lemma SeedPageUnfold(c: Cipher, s: RecordStore, page: nat)
    ensures SeedPage(c, s, page)
            == if |PageRows(s.rows, page)| == 0 then InsertData(c, s, page, SeedItems(page)) else s
  {
    assert |GetPageData(c, s, page, "")| == |PageRows(s.rows, page)|;
  }

  /** One iteration: other pages keep their rows; a non-empty page is left as
      it is; an empty page gets exactly the 1000 generated records. */
  lemma SeedPageEffect(c: Cipher, s: RecordStore, page: nat)
    ensures Valid(s) ==> Valid(SeedPage(c, s, page))
    ensures forall q :: q != page ==> PageRows(SeedPage(c, s, page).rows, q) == PageRows(s.rows, q)
    ensures |PageRows(s.rows, page)| > 0 ==> SeedPage(c, s, page) == s
    ensures |PageRows(s.rows, page)| == 0 ==> |PageRows(SeedPage(c, s, page).rows, page)| == RecordsPerPage
    ensures |PageRows(s.rows, page)| == 0 && RoundTrips(c) ==> Seeded(c, SeedPage(c, s, page), page)
  {
    SeedPageUnfold(c, s, page);
    forall q | q != page
      ensures PageRows(SeedPage(c, s, page).rows, q) == PageRows(s.rows, q)
    {
      SeedPageOther(c, s, page, q);
    }
    if |PageRows(s.rows, page)| == 0 {
      InsertThenPageRows(c, s, page, SeedItems(page));
      if RoundTrips(c) {
        SeedPageNames(c, s, page);
      }
    }
  }

  lemma SeedPageOther(c: Cipher, s: RecordStore, page: nat, q: int)
    requires q != page
    ensures PageRows(SeedPage(c, s, page).rows, q) == PageRows(s.rows, q)
  {
    SeedPageUnfold(c, s, page);
    if |PageRows(s.rows, page)| == 0 {
      InsertLeavesOtherPages(c, s, page, SeedItems(page), q);
    }
  }

  lemma SeedPageFills(c: Cipher, s: RecordStore, page: nat)
    ensures |PageRows(SeedPage(c, s, page).rows, page)| > 0
  {
    SeedPageUnfold(c, s, page);
    if |PageRows(s.rows, page)| == 0 {
      InsertThenPageRows(c, s, page, SeedItems(page));
    }
  }

  lemma SeedPageNames(c: Cipher, s: RecordStore, page: nat)
    requires |PageRows(s.rows, page)| == 0
    requires RoundTrips(c)
    ensures Seeded(c, InsertData(c, s, page, SeedItems(page)), page)
  {
    var batch := Inserted(s.nextId, page, SeedItems(page));
    InsertThenRead(c, s, page, SeedItems(page), "");
    assert GetPageData(c, s, page, "") == [];
    assert SearchByName(batch, "") == batch;
    assert GetPageData(c, InsertData(c, s, page, SeedItems(page)), page, "") == batch;
    InsertedSeedNames(s.nextId, page);
  }

  /** The plaintext batch for `page` holds "Item 1 on Page page" to
      "Item 1000 on Page page", in order, all on `page`. */
  lemma InsertedSeedNames(firstId: nat, page: nat)
    ensures var batch := Inserted(firstId, page, SeedItems(page));
            && |batch| == RecordsPerPage
            && forall i :: 0 <= i < |batch| ==> batch[i].name == SeedName(i + 1, page) && batch[i].page == page
  {
  }

  /** The loop from `page` on keeps the store well formed. */
  lemma SeedFromValid(c: Cipher, s: RecordStore, page: nat)
    ensures Valid(s) ==> Valid(SeedFrom(c, s, page))
  {
    if Valid(s) && page <= LastPage {
      var inv := (x: RecordStore, p: nat) => Valid(x);
      forall x: RecordStore, p: nat | page <= p <= LastPage && inv(x, p)
        ensures inv(SeedStep(c)(x, p), p + 1)
      {
        SeedPageUnfold(c, x, p);
      }
      IterateInvariant(SeedStep(c), inv, s, page, LastPage);
    }
  }

  /** The loop from `page` on leaves alone a page it does not visit and a
      page that already has rows. */
  lemma SeedFromKeeps(c: Cipher, s: RecordStore, page: nat, q: int)
    requires q < page || q > LastPage || |PageRows(s.rows, q)| > 0
    ensures PageRows(SeedFrom(c, s, page).rows, q) == PageRows(s.rows, q)
  {
    if page <= LastPage {
      var rows := PageRows(s.rows, q);
      var inv := (x: RecordStore, p: nat) => PageRows(x.rows, q) == rows;
      forall x: RecordStore, p: nat | page <= p <= LastPage && inv(x, p)
        ensures inv(SeedStep(c)(x, p), p + 1)
      {
        if p == q {
          SeedPageUnfold(c, x, p);
        } else {
          SeedPageOther(c, x, p, q);
        }
      }
      IterateInvariant(SeedStep(c), inv, s, page, LastPage);
    }
  }

  /** The loop from `page` on leaves every page it visits non-empty. */
  lemma SeedFromFills(c: Cipher, s: RecordStore, page: nat, q: nat)
    requires page <= q <= LastPage
    ensures |PageRows(SeedFrom(c, s, page).rows, q)| > 0
  {
    var inv := (x: RecordStore, p: nat) => p <= q || |PageRows(x.rows, q)| > 0;
    forall x: RecordStore, p: nat | page <= p <= LastPage && inv(x, p)
      ensures inv(SeedStep(c)(x, p), p + 1)
    {
      if p == q {
        SeedPageFills(c, x, p);
      } else if p > q {
        SeedPageOther(c, x, p, q);
      }
    }
    IterateInvariant(SeedStep(c), inv, s, page, LastPage);
  }

  /** The loop from `page` on: pages before `page` and after the last page
      keep their rows; in between, non-empty pages keep their rows, and every
      page ends up non-empty. */
  lemma SeedFromFrame(c: Cipher, s: RecordStore, page: nat)
    ensures forall q :: (q < page || q > LastPage) ==>
              PageRows(SeedFrom(c, s, page).rows, q) == PageRows(s.rows, q)
    ensures forall q: nat :: page <= q <= LastPage && |PageRows(s.rows, q)| > 0 ==>
              PageRows(SeedFrom(c, s, page).rows, q) == PageRows(s.rows, q)
    ensures forall q: nat :: page <= q <= LastPage ==> |PageRows(SeedFrom(c, s, page).rows, q)| > 0
  {
    forall q | q < page || q > LastPage
      ensures PageRows(SeedFrom(c, s, page).rows, q) == PageRows(s.rows, q)
    {
      SeedFromKeeps(c, s, page, q);
    }
    forall q: nat | page <= q <= LastPage && |PageRows(s.rows, q)| > 0
      ensures PageRows(SeedFrom(c, s, page).rows, q) == PageRows(s.rows, q)
    {
      SeedFromKeeps(c, s, page, q);
    }
    forall q: nat | page <= q <= LastPage
      ensures |PageRows(SeedFrom(c, s, page).rows, q)| > 0
    {
      SeedFromFills(c, s, page, q);
    }
  }

  /** The loop from `page` on seeds every page in between that was empty. */
  lemma SeedFromSeeds(c: Cipher, s: RecordStore, page: nat, q: nat)
    requires RoundTrips(c)
    requires page <= q <= LastPage && |PageRows(s.rows, q)| == 0
    ensures Seeded(c, SeedFrom(c, s, page), q)
  {
    var inv := (x: RecordStore, p: nat) =>
      if p <= q then |PageRows(x.rows, q)| == 0 else Seeded(c, x, q);
    forall x: RecordStore, p: nat | page <= p <= LastPage && inv(x, p)
      ensures inv(SeedStep(c)(x, p), p + 1)
    {
      if p == q {
        SeedPageUnfold(c, x, p);
        SeedPageNames(c, x, p);
      } else {
        SeedPageOther(c, x, p, q);
        if p > q {
          SeededDependsOnlyOnRows(c, x, SeedPage(c, x, p), q);
        }
      }
    }
    IterateInvariant(SeedStep(c), inv, s, page, LastPage);
  }

  lemma SeededDependsOnlyOnRows(c: Cipher, s: RecordStore, t: RecordStore, page: nat)
    requires PageRows(s.rows, page) == PageRows(t.rows, page)
    requires Seeded(c, s, page)
    ensures Seeded(c, t, page)
  {
    SameRowsSameRead(c, s, t, page);
  }

  /** Seeding every page of 1 to 10 that is empty: each empty page ends with
      exactly the 1000 generated records, every other page keeps its rows. */
  lemma PopulateSeedsEmptyPages(c: Cipher, s: RecordStore, page: int)
    requires RoundTrips(c)
    ensures FirstPage <= page <= LastPage && |PageRows(s.rows, page)| == 0 ==>
              Seeded(c, PopulateDatabase(c, s), page)
    ensures !(FirstPage <= page <= LastPage && |PageRows(s.rows, page)| == 0) ==>
              PageRows(PopulateDatabase(c, s).rows, page) == PageRows(s.rows, page)
  {
    SeedFromFrame(c, s, FirstPage);
    if FirstPage <= page <= LastPage && |PageRows(s.rows, page)| == 0 {
      SeedFromSeeds(c, s, FirstPage, page);
    }
  }

  /** Seeding a store whose pages from `page` on are all non-empty changes nothing. */
  lemma SeedFromNothingToDo(c: Cipher, s: RecordStore, page: nat)
    requires forall q: nat :: page <= q <= LastPage ==> |PageRows(s.rows, q)| > 0
    ensures SeedFrom(c, s, page) == s
  {
    if page <= LastPage {
      var inv := (x: RecordStore, p: nat) => x == s;
      forall x: RecordStore, p: nat | page <= p <= LastPage && inv(x, p)
        ensures inv(SeedStep(c)(x, p), p + 1)
      {
        SeedPageUnfold(c, x, p);
      }
      IterateInvariant(SeedStep(c), inv, s, page, LastPage);
    }
  }

  /** Running the seeder twice leaves the same store as running it once. */
  lemma PopulateIdempotent(c: Cipher, s: RecordStore)
    ensures PopulateDatabase(c, PopulateDatabase(c, s)) == PopulateDatabase(c, s)
  {
    SeedFromNothingToDo(c, PopulateDatabase(c, s), FirstPage);
  }
}
