/** The text assembly in `main` (lines 145-161): the rows of the result
    list, field after field, then one `undecoded;` line per undecoded entry;
    or the fixed message when the result list is empty. */
module CsvOutput {
  import opened Wrappers
  import opened Records
  import opened PathDecoder
  import opened Accumulator
  import opened PagedQuery

  const NoResultsMessage: string := "No results found matching search term"

  /** Line 149's plain message, or the body of the attachment. */
  datatype Response = Message(text: string) | Attachment(body: string)

  function RowText(row: Row): string {
    row.name + row.path + row.created + row.modified
  }

  /** Lines 153-157. */
  function RowsText(rows: seq<Row>): string {
    if |rows| == 0 then "" else RowsText(rows[..|rows| - 1]) + RowText(rows[|rows| - 1])
  }

  /** Line 161: the marker written before each undecoded entry. */
  const UndecodedMarker: string := "undecoded;"

  /** Lines 159-161. */
  function UndecodedText(entries: seq<string>): string {
    if |entries| == 0 then "" else UndecodedText(entries[..|entries| - 1]) + (UndecodedMarker + entries[|entries| - 1])
  }

  /** The rows of `a + b` render as those of `a`, then those of `b`. */
  lemma {:induction false} RowsTextConcat(a: seq<Row>, b: seq<Row>)
    ensures RowsText(a + b) == RowsText(a) + RowsText(b)
    decreases |b|
  {
    if |b| == 0 {
      assert a + b == a;
    } else {
      var n := |b| - 1;
      var ab := a + b;
      var front := a + b[..n];
      assert ab[..|ab| - 1] == front;
      assert ab[|ab| - 1] == b[n];
      RowsTextConcat(a, b[..n]);
      assert RowsText(ab) == RowsText(front) + RowText(b[n]);
      assert RowsText(b) == RowsText(b[..n]) + RowText(b[n]);
    }
  }


  /** The undecoded lines of `a + b` are those of `a`, then those of `b`. */
  lemma {:induction false} UndecodedTextConcat(a: seq<string>, b: seq<string>)
    ensures UndecodedText(a + b) == UndecodedText(a) + UndecodedText(b)
    decreases |b|
  {
    if |b| == 0 {
      assert a + b == a;
    } else {
      var n := |b| - 1;
      var ab := a + b;
      var front := a + b[..n];
      assert ab[..|ab| - 1] == front;
      assert ab[|ab| - 1] == b[n];
      UndecodedTextConcat(a, b[..n]);
      assert UndecodedText(ab) == UndecodedText(front) + (UndecodedMarker + b[n]);
      assert UndecodedText(b) == UndecodedText(b[..n]) + (UndecodedMarker + b[n]);
    }
  }


  function Render(rows: seq<Row>, undecoded: seq<string>): (resp: Response)
    ensures resp.Message? <==> |rows| == 0
    ensures resp.Message? ==> resp.text == NoResultsMessage
    ensures resp.Attachment? ==> RowsText(rows) <= resp.body
    ensures resp.Attachment? ==> resp.body[|RowsText(rows)|..] == UndecodedText(undecoded)
  {
    if |rows| == 0 then Message(NoResultsMessage)
    else Attachment(RowsText(rows) + UndecodedText(undecoded))
  }

  /** The number of line breaks in a text. */
  function Newlines(s: string): nat {
    multiset(s)['\n']
  }

  /** A line break appears nowhere in `s`. */
  predicate NoBreak(s: string) {
    '\n' !in s
  }

  lemma NoBreakHasNoNewlines(s: string)
    ensures NoBreak(s) <==> Newlines(s) == 0
  {
  }

  /** A hit whose fields and decoded path hold no line break renders as
      exactly one line. */
  lemma RowIsOneLine(rec: SearchRecord, decodedPath: string)
    requires NoBreak(rec.name) && NoBreak(decodedPath)
    requires rec.created.Some? ==> NoBreak(rec.created.value)
    requires rec.modified.Some? ==> NoBreak(rec.modified.value)
    ensures Newlines(RowText(RenderRow(rec, decodedPath))) == 1
  {
    var row := RenderRow(rec, decodedPath);
    NoBreakHasNoNewlines(rec.name);
    NoBreakHasNoNewlines(decodedPath);
    assert row.name == rec.name + ";";
    assert row.path == decodedPath + ";";
    var c := match rec.created case Some(v) => v case None => "";
    var m := match rec.modified case Some(v) => v case None => "";
    NoBreakHasNoNewlines(c);
    NoBreakHasNoNewlines(m);
    assert row.created == c + ";";
    assert row.modified == m + ";\n";
  }

  /** An undecoded entry of a path without line breaks is one line: the
      padding fix only ever adds `=`. */
  lemma EntryIsOneLine(raw: string)
    requires |raw| > 0 && NoBreak(raw)
    ensures Newlines(FixPadding(raw) + ";\n") == 1
  {
    var fixed := FixPadding(raw);
    assert NoBreak(fixed) by {
      if IsPadDigit(Last(raw)) {
        forall i | 0 <= i < |fixed| ensures fixed[i] != '\n' {
          if i < |raw| - 1 {
            assert fixed[i] == fixed[..|raw| - 1][i] == raw[..|raw| - 1][i] == raw[i];
          }
        }
      }
    }
    NoBreakHasNoNewlines(fixed);
  }

  lemma NewlinesConcat(a: string, b: string)
    ensures Newlines(a + b) == Newlines(a) + Newlines(b)
  {
    assert multiset(a + b) == multiset(a) + multiset(b);
  }

  lemma MarkerHasNoNewlines()
    ensures Newlines(UndecodedMarker) == 0
  {
    assert NoBreak(UndecodedMarker);
    NoBreakHasNoNewlines(UndecodedMarker);
  }

  lemma {:induction false} RowsTextLines(rows: seq<Row>)
    requires forall i :: 0 <= i < |rows| ==> Newlines(RowText(rows[i])) == 1
    ensures Newlines(RowsText(rows)) == |rows|
    decreases |rows|
  {
    if |rows| > 0 {
      var n := |rows| - 1;
      assert forall i :: 0 <= i < n ==> rows[..n][i] == rows[i];
      RowsTextLines(rows[..n]);
      NewlinesConcat(RowsText(rows[..n]), RowText(rows[n]));
    }
  }

  lemma {:induction false} UndecodedTextLines(entries: seq<string>)
    requires forall i :: 0 <= i < |entries| ==> Newlines(entries[i]) == 1
    ensures Newlines(UndecodedText(entries)) == |entries|
    decreases |entries|
  {
    if |entries| > 0 {
      var n := |entries| - 1;
      var prefix, e := entries[..n], entries[n];
      assert forall i :: 0 <= i < n ==> prefix[i] == entries[i];
      UndecodedTextLines(prefix);
      var line := UndecodedMarker + e;
      assert Newlines(line) == 1 by {
        MarkerHasNoNewlines();
        NewlinesConcat(UndecodedMarker, e);
      }
      assert UndecodedText(entries) == UndecodedText(prefix) + line;
      NewlinesConcat(UndecodedText(prefix), line);
    }
  }

  /** The attachment holds one line per result row and one per undecoded
      entry, when no field carries a line break of its own. */
  lemma AttachmentLines(rows: seq<Row>, undecoded: seq<string>)
    requires |rows| > 0
    requires forall i :: 0 <= i < |rows| ==> Newlines(RowText(rows[i])) == 1
    requires forall i :: 0 <= i < |undecoded| ==> Newlines(undecoded[i]) == 1
    ensures Render(rows, undecoded).Attachment?
    ensures Newlines(Render(rows, undecoded).body) == |rows| + |undecoded|
  {
    RowsTextLines(rows);
    UndecodedTextLines(undecoded);
  }

  /** `main` once a search term is present: run the query with the
      decoder, then render the lists it returns. A raised exception
      propagates as the request's failure. */
  method Respond(p: Provider, decode: string -> Option<string>)
    returns (resp: Result<Response, QueryError>)
    ensures resp.Failure? <==> exists j :: 0 <= j < |p.records| && |p.records[j].path| == 0 &&
                                  j < LastSkip(p.total, PageSize) + PageSize
    ensures resp.Success? ==>
              var last := Page(p, LastSkip(p.total, PageSize), PageSize);
              && CollectPage(decode, last).Success?
              && resp.value == Render(CollectPage(decode, last).value.rows, CollectPage(decode, last).value.undecoded)
  {
    var outcome;
    ghost var skips;
    outcome, skips := SimpleTextQuery(p, decode);
    SweepWithinLastSkip(p.total, PageSize, skips);
    match outcome
    case Failure(e) =>
      resp := Failure(e);
    case Success(st) =>
      resp := Success(Render(st.rows, st.undecoded));
  }
}
