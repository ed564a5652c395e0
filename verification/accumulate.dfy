/** The per-page fold of `simple_text_query` (lines 95-127): every hit of a
    page is decoded, flagged hits add an entry to the undecoded list, and
    the hit's row joins the result list unless a row with the same path is
    already there. The seen-set and both lists start empty for each page. */
module Accumulator {
  import opened Wrappers
  import opened Records
  import opened PathDecoder

  /** Why a request fails: `file_path[-1]` raises on an empty storage path. */
  datatype QueryError = EmptyPath

  /** `result_dict`, `result_list` and `undecoded_list`. */
  datatype PageState = PageState(seen: set<string>, rows: seq<Row>, undecoded: seq<string>)

  const Fresh: PageState := PageState({}, [], [])

  predicate PathsNonEmpty(page: seq<SearchRecord>) {
    forall i :: 0 <= i < |page| ==> |page[i].path| > 0
  }

  /** The row a hit produces, before any dedup. */
  function RowOf(decode: string -> Option<string>, rec: SearchRecord): Row
    requires |rec.path| > 0
  {
    RenderRow(rec, DecodePath(decode, rec.path).decoded)
  }

  /** The undecoded-list entry a hit produces, if it is flagged. */
  function EntryOf(decode: string -> Option<string>, rec: SearchRecord): seq<string>
    requires |rec.path| > 0
  {
    if Flagged(decode, rec.path) then [FixPadding(rec.path) + ";\n"] else []
  }

  /** One iteration of the inner `for` loop. The undecoded entry is added
      before the dedup check, so a duplicate still contributes one. */
  function Visit(decode: string -> Option<string>, st: PageState, rec: SearchRecord): (r: Result<PageState, QueryError>)
    ensures r.Failure? <==> |rec.path| == 0
    ensures r.Success? ==> r.value.seen == st.seen + {RowOf(decode, rec).path}
    ensures r.Success? && RowOf(decode, rec).path in st.seen ==> r.value.rows == st.rows
    ensures r.Success? && RowOf(decode, rec).path !in st.seen ==> r.value.rows == st.rows + [RowOf(decode, rec)]
  {
    if |rec.path| == 0 then Failure(EmptyPath)
    else
      var d := DecodePath(decode, rec.path);
      var undecoded := if Flagged(decode, rec.path) then st.undecoded + [d.fixed + ";\n"] else st.undecoded;
      var row := RenderRow(rec, d.decoded);
      if row.path in st.seen then Success(PageState(st.seen, st.rows, undecoded))
      else Success(PageState(st.seen + {row.path}, st.rows + [row], undecoded))
  }

  /** The keys of the rows are pairwise distinct. */
  predicate UniqueKeys(rows: seq<Row>) {
    forall i, j :: 0 <= i < j < |rows| ==> rows[i].path != rows[j].path
  }

  /** The invariant lines 123-127 keep: `result_dict` holds exactly the keys
      of `result_list`, and no key occurs in two rows. */
  predicate KeyIndexed(st: PageState) {
    st.seen == Keys(st.rows) && UniqueKeys(st.rows)
  }

  /** One hit keeps the dict and the list in step. */
  lemma VisitKeepsKeyIndex(decode: string -> Option<string>, st: PageState, rec: SearchRecord)
    requires KeyIndexed(st)
    ensures Visit(decode, st, rec).Success? ==> KeyIndexed(Visit(decode, st, rec).value)
  {
    if |rec.path| > 0 {
      var row := RowOf(decode, rec);
      KeysSnoc(st.rows, row);
      if row.path !in st.seen {
        forall i | 0 <= i < |st.rows|
          ensures st.rows[i].path != row.path
        {
          assert st.rows[i] in st.rows;
        }
      }
    }
  }

  /** The fold over one page, hits taken in page order. A completed page
      keeps the dict and the list in step and holds at most one row per hit. */
  function CollectPage(decode: string -> Option<string>, page: seq<SearchRecord>): (r: Result<PageState, QueryError>)
    ensures r.Success? ==> KeyIndexed(r.value) && |r.value.rows| <= |page|
  {
    if |page| == 0 then
      assert Keys([]) == {};
      Success(Fresh)
    else
      var st :- CollectPage(decode, page[..|page| - 1]);
      VisitKeepsKeyIndex(decode, st, page[|page| - 1]);
      Visit(decode, st, page[|page| - 1])
  }

  // ---------------------------------------------------------------------
  // Reference definitions, stated without a seen-set.

  /** Every row of the page, duplicates included. */
  function Candidates(decode: string -> Option<string>, page: seq<SearchRecord>): (rows: seq<Row>)
    requires PathsNonEmpty(page)
    ensures |rows| == |page|
    ensures forall i :: 0 <= i < |page| ==> rows[i] == RowOf(decode, page[i])
  {
    if |page| == 0 then [] else Candidates(decode, page[..|page| - 1]) + [RowOf(decode, page[|page| - 1])]
  }

  function Keys(rows: seq<Row>): set<string> {
    set r | r in rows :: r.path
  }

  /** No earlier row carries the same key as `rows[j]`. */
  predicate IsFirst(rows: seq<Row>, j: nat)
    requires j < |rows|
  {
    forall k :: 0 <= k < j ==> rows[k].path != rows[j].path
  }

  /** The rows that are the first of their key, in their original order. */
  function FirstOccurrences(rows: seq<Row>): seq<Row>
  {
    if |rows| == 0 then []
    else FirstOccurrences(rows[..|rows| - 1]) + (if IsFirst(rows, |rows| - 1) then [rows[|rows| - 1]] else [])
  }

  /** The undecoded entries of the page, in page order, duplicates included. */
  function UndecodedEntries(decode: string -> Option<string>, page: seq<SearchRecord>): seq<string>
    requires PathsNonEmpty(page)
  {
    if |page| == 0 then [] else UndecodedEntries(decode, page[..|page| - 1]) + EntryOf(decode, page[|page| - 1])
  }

  /** What the fold yields on a page without empty paths. */
  function Expected(decode: string -> Option<string>, page: seq<SearchRecord>): PageState
    requires PathsNonEmpty(page)
  {
    var cands := Candidates(decode, page);
    PageState(Keys(cands), FirstOccurrences(cands), UndecodedEntries(decode, page))
  }

  // ---------------------------------------------------------------------
  // The fold agrees with the reference definitions.

  lemma {:induction false} CollectPageFailsIffEmptyPath(decode: string -> Option<string>, page: seq<SearchRecord>)
    ensures CollectPage(decode, page).Failure? <==> !PathsNonEmpty(page)
    decreases |page|
  {
    if |page| > 0 {
      var n := |page| - 1;
      CollectPageFailsIffEmptyPath(decode, page[..n]);
      assert page == page[..n] + [page[n]];
    }
  }

  lemma KeysSnoc(rows: seq<Row>, r: Row)
    ensures Keys(rows + [r]) == Keys(rows) + {r.path}
  {
    assert forall x :: x in rows + [r] <==> x in rows || x == r;
  }

  /** Extending the rows by one extends the first occurrences exactly when
      the new row's key is new. */
  lemma FirstOccurrencesSnoc(rows: seq<Row>, r: Row)
    ensures FirstOccurrences(rows + [r]) ==
              if r.path in Keys(rows) then FirstOccurrences(rows) else FirstOccurrences(rows) + [r]
  {
    var all := rows + [r];
    var n := |rows|;
    assert all[..n] == rows;
    if !IsFirst(all, n) {
      var k :| 0 <= k < n && all[k].path == r.path;
      assert rows[k] == all[k];
    }
    if r.path in Keys(rows) {
      var x :| x in rows && x.path == r.path;
      var k :| 0 <= k < n && rows[k] == x;
      assert all[k] == rows[k];
      assert FirstOccurrences(rows) + [] == FirstOccurrences(rows);
    }
  }

  /** One step of the fold in terms of the hit's row and entry. */
  lemma VisitSpec(decode: string -> Option<string>, st: PageState, rec: SearchRecord)
    requires |rec.path| > 0
    ensures var row := RowOf(decode, rec);
            Visit(decode, st, rec) == Success(PageState(
              st.seen + {row.path},
              if row.path in st.seen then st.rows else st.rows + [row],
              st.undecoded + EntryOf(decode, rec)))
  {
    var row := RowOf(decode, rec);
    assert st.undecoded + [] == st.undecoded;
    if row.path in st.seen {
      assert st.seen + {row.path} == st.seen;
    }
  }

  /** One step of the fold maps the reference result of a prefix to the
      reference result of the prefix extended by one hit. */
  lemma VisitExtendsReference(decode: string -> Option<string>, page: seq<SearchRecord>)
    requires |page| > 0 && PathsNonEmpty(page)
    ensures PathsNonEmpty(page[..|page| - 1])
    ensures Visit(decode, Expected(decode, page[..|page| - 1]), page[|page| - 1]) == Success(Expected(decode, page))
  {
    var n := |page| - 1;
    var prefix := page[..n];
    assert PathsNonEmpty(prefix) by {
      forall i | 0 <= i < n ensures |prefix[i].path| > 0 { assert prefix[i] == page[i]; }
    }
    var pcands := Candidates(decode, prefix);
    var row := RowOf(decode, page[n]);
    assert Candidates(decode, page) == pcands + [row];
    KeysSnoc(pcands, row);
    FirstOccurrencesSnoc(pcands, row);
    VisitSpec(decode, Expected(decode, prefix), page[n]);
  }

  lemma {:induction false} CollectPageMatchesReference(decode: string -> Option<string>, page: seq<SearchRecord>)
    requires PathsNonEmpty(page)
    ensures CollectPage(decode, page) == Success(Expected(decode, page))
    decreases |page|
  {
    if |page| > 0 {
      var n := |page| - 1;
      VisitExtendsReference(decode, page);
      CollectPageMatchesReference(decode, page[..n]);
    } else {
      assert Keys(Candidates(decode, page)) == {};
    }
  }

  // ---------------------------------------------------------------------
  // Properties of the reference dedup.

  lemma {:induction false} FirstOccurrencesUnique(rows: seq<Row>)
    ensures UniqueKeys(FirstOccurrences(rows))
    ensures Keys(FirstOccurrences(rows)) == Keys(rows)
    decreases |rows|
  {
    if |rows| > 0 {
      var n := |rows| - 1;
      var r := rows[n];
      FirstOccurrencesUnique(rows[..n]);
      assert rows == rows[..n] + [r];
      FirstOccurrencesSnoc(rows[..n], r);
      KeysSnoc(rows[..n], r);
      var out := FirstOccurrences(rows[..n]);
      if r.path !in Keys(rows[..n]) {
        KeysSnoc(out, r);
        forall i | 0 <= i < |out|
          ensures out[i].path != r.path
        {
          assert out[i] in out;
        }
      }
    }
  }

  /** First wins: the row of a key's first occurrence is the one kept, and
      every kept row comes from the input. */
  lemma {:induction false} FirstOccurrenceKept(rows: seq<Row>, j: nat)
    requires j < |rows| && IsFirst(rows, j)
    ensures rows[j] in FirstOccurrences(rows)
    decreases |rows|
  {
    var n := |rows| - 1;
    if j < n {
      assert IsFirst(rows[..n], j) by {
        forall k | 0 <= k < j ensures rows[..n][k].path != rows[..n][j].path {
          assert rows[..n][k] == rows[k];
        }
      }
      FirstOccurrenceKept(rows[..n], j);
      assert rows[..n][j] == rows[j];
    }
  }

  lemma {:induction false} FirstOccurrencesFromInput(rows: seq<Row>)
    ensures forall r :: r in FirstOccurrences(rows) ==> r in rows
    decreases |rows|
  {
    if |rows| > 0 {
      var n := |rows| - 1;
      FirstOccurrencesFromInput(rows[..n]);
      assert rows == rows[..n] + [rows[n]];
    }
  }

  /** Later duplicates leave the result list as it was, yet a flagged
      duplicate still adds its undecoded entry. */
  lemma DuplicateLeavesRows(decode: string -> Option<string>, page: seq<SearchRecord>, i: nat, rec: SearchRecord)
    requires PathsNonEmpty(page) && |rec.path| > 0 && i < |page|
    requires DecodePath(decode, page[i].path).decoded == DecodePath(decode, rec.path).decoded
    ensures CollectPage(decode, page).Success? && CollectPage(decode, page + [rec]).Success?
    ensures CollectPage(decode, page + [rec]).value.rows == CollectPage(decode, page).value.rows
    ensures CollectPage(decode, page + [rec]).value.undecoded == CollectPage(decode, page).value.undecoded + EntryOf(decode, rec)
  {
    CollectPageMatchesReference(decode, page);
    var st := Expected(decode, page);
    assert (page + [rec])[..|page|] == page;
    assert CollectPage(decode, page + [rec]) == Visit(decode, st, rec);
    RowKeyInjective(page[i], DecodePath(decode, page[i].path).decoded, rec, DecodePath(decode, rec.path).decoded);
    var cands := Candidates(decode, page);
    assert cands[i] in cands;
    assert RowOf(decode, rec).path in st.seen;
    VisitSpec(decode, st, rec);
  }

  /** The page result: unique keys, every key of the page represented by its
      first row, and one undecoded entry per flagged hit, duplicates included. */
  lemma PageResult(decode: string -> Option<string>, page: seq<SearchRecord>)
    requires PathsNonEmpty(page)
    ensures CollectPage(decode, page).Success?
    ensures var st := CollectPage(decode, page).value;
            && UniqueKeys(st.rows)
            && Keys(st.rows) == st.seen == Keys(Candidates(decode, page))
            && (forall j :: 0 <= j < |page| && IsFirst(Candidates(decode, page), j) ==> RowOf(decode, page[j]) in st.rows)
            && (forall r :: r in st.rows ==> r in Candidates(decode, page))
            && st.undecoded == UndecodedEntries(decode, page)
  {
    CollectPageMatchesReference(decode, page);
    var cands := Candidates(decode, page);
    FirstOccurrencesUnique(cands);
    FirstOccurrencesFromInput(cands);
    forall j | 0 <= j < |page| && IsFirst(cands, j)
      ensures RowOf(decode, page[j]) in FirstOccurrences(cands)
    {
      FirstOccurrenceKept(cands, j);
    }
  }
}
