/** The storage-path decoder of `simple_text_query`: the index stores a
    storage path as base64 whose `=` padding has been replaced by one
    trailing digit (`0`, `1` or `2` = number of `=` removed). The decoder
    restores the padding, then asks the base64/UTF-8 library to decode.

    The library call (`b64decode(..).decode("utf-8").rstrip()`) is not
    modelled: it is the parameter `decode`, with `None` standing for the
    exception it may raise. */
module PathDecoder {
  import opened Wrappers

  /** The last character of a non-empty string (Python's `s[-1]`). */
  function Last(s: string): char
    requires |s| > 0
  {
    s[|s| - 1]
  }

  /** The digits the index uses in place of `=` padding. */
  predicate IsPadDigit(c: char) {
    c == '0' || c == '1' || c == '2'
  }

  /** Number of `=` characters a padding digit stands for. */
  function PadCount(c: char): nat
    requires IsPadDigit(c)
  {
    if c == '0' then 0 else if c == '1' then 1 else 2
  }

  /** The padding fix of lines 103-108: a trailing `0`, `1` or `2` is
      replaced by zero, one or two `=`; any other path is left alone.
      The source indexes `file_path[-1]`, which raises on an empty path,
      hence the precondition (callers turn an empty path into an error). */
  function FixPadding(path: string): (fixed: string)
    requires |path| > 0
    ensures IsPadDigit(Last(path)) ==>
              && |fixed| == |path| - 1 + PadCount(Last(path))
              && fixed[..|path| - 1] == path[..|path| - 1]
              && forall i :: |path| - 1 <= i < |fixed| ==> fixed[i] == '='
    ensures !IsPadDigit(Last(path)) ==> fixed == path
  {
    var stem := path[..|path| - 1];
    match Last(path)
    case '0' => stem
    case '1' => stem + "="
    case '2' => stem + "=="
    case _ => path
  }

  /** The index-side encoding that the padding fix undoes: strip up to two
      trailing `=` from a base64 string and append their count as a digit. */
  function TrailingPadCount(b64: string): (n: nat)
    ensures n <= 2 && n <= |b64|
    ensures forall i :: |b64| - n <= i < |b64| ==> b64[i] == '='
  {
    if |b64| >= 2 && b64[|b64| - 2] == '=' && b64[|b64| - 1] == '=' then 2
    else if |b64| >= 1 && b64[|b64| - 1] == '=' then 1
    else 0
  }

  function DigitFor(n: nat): (c: char)
    requires n <= 2
    ensures IsPadDigit(c) && PadCount(c) == n
  {
    if n == 0 then '0' else if n == 1 then '1' else '2'
  }

  function CompactPadding(b64: string): (raw: string)
    ensures |raw| > 0 && IsPadDigit(Last(raw))
    ensures raw[..|raw| - 1] == b64[..|b64| - TrailingPadCount(b64)]
  {
    var n := TrailingPadCount(b64);
    b64[..|b64| - n] + [DigitFor(n)]
  }

  /** Round trip: fixing the padding of a compacted base64 string gives the
      base64 string back, whatever it was. */
  lemma FixPaddingInvertsCompaction(b64: string)
    ensures FixPadding(CompactPadding(b64)) == b64
  {
    var n := TrailingPadCount(b64);
    var raw := CompactPadding(b64);
    var fixed := FixPadding(raw);
    assert |fixed| == |b64|;
    forall i | 0 <= i < |b64|
      ensures fixed[i] == b64[i]
    {
      if i < |b64| - n {
        assert fixed[i] == raw[i];
      }
    }
  }

  /** Converse round trip: a raw path ending in a padding digit is the
      compaction of its own fixed form, provided the digit did not follow a
      literal `=` (which compaction would have absorbed). */
  lemma CompactionInvertsFixPadding(raw: string)
    requires |raw| > 0 && IsPadDigit(Last(raw))
    requires |raw| == 1 || raw[|raw| - 2] != '='
    ensures CompactPadding(FixPadding(raw)) == raw
  {
    var fixed := FixPadding(raw);
    var n := PadCount(Last(raw));
    assert TrailingPadCount(fixed) == n by {
      if n == 0 {
        assert fixed == raw[..|raw| - 1];
      } else if n == 1 {
        assert fixed == raw[..|raw| - 1] + "=";
      }
    }
    var back := CompactPadding(fixed);
    assert back[..|back| - 1] == raw[..|raw| - 1];
    assert back == back[..|back| - 1] + [Last(back)];
    assert raw == raw[..|raw| - 1] + [Last(raw)];
  }

  /** The padding fix changes a path exactly when the path ends in a
      padding digit. */
  lemma FixPaddingChangesIffDigit(path: string)
    requires |path| > 0
    ensures FixPadding(path) != path <==> IsPadDigit(Last(path))
  {
    var fixed := FixPadding(path);
    if IsPadDigit(Last(path)) && PadCount(Last(path)) == 1 {
      assert fixed[|path| - 1] == '=' != Last(path);
    }
  }

  /** Applying the fix twice changes nothing more, unless the first pass
      dropped a `0` and uncovered another padding digit. */
  lemma FixPaddingIdempotent(path: string)
    requires |path| > 0 && Last(path) != '0'
    ensures |FixPadding(path)| > 0
    ensures FixPadding(FixPadding(path)) == FixPadding(path)
  {
    var fixed := FixPadding(path);
    if IsPadDigit(Last(path)) {
      assert Last(fixed) == '=';
    }
  }

  /** The outcome of decoding one storage path (lines 100-113). */
  datatype DecodedPath = DecodedPath(raw: string, fixed: string, decoded: string)

  /** `path_decoded` starts as the raw path (line 101) and is overwritten
      only when the library decode of the fixed path succeeds (line 111). */
  function DecodePath(decode: string -> Option<string>, raw: string): (d: DecodedPath)
    requires |raw| > 0
    ensures d.raw == raw && d.fixed == FixPadding(raw)
    ensures d.decoded == raw || decode(d.fixed) == Some(d.decoded)
  {
    var fixed := FixPadding(raw);
    match decode(fixed)
    case Some(text) => DecodedPath(raw, fixed, text)
    case None => DecodedPath(raw, fixed, raw)
  }

  /** Line 115: a hit is flagged undecoded when its decoded value equals
      the post-fix path. In terms of the inputs, that happens exactly when
      the library returned the fixed path itself, or when the library failed
      and the padding fix had left the path unchanged. */
  function Flagged(decode: string -> Option<string>, raw: string): (flagged: bool)
    requires |raw| > 0
    ensures flagged <==> || decode(FixPadding(raw)) == Some(FixPadding(raw))
                         || (decode(FixPadding(raw)).None? && !IsPadDigit(Last(raw)))
  {
    var d := DecodePath(decode, raw);
    FixPaddingChangesIffDigit(raw);
    d.decoded == d.fixed
  }

  /** Classification after a failed decode: the record is flagged exactly
      when the raw path did not end in a padding digit, because the raw path
      (kept as the decoded value) then differs from the fixed one. */
  lemma FailedDecodeFlaggedIffNoDigit(decode: string -> Option<string>, raw: string)
    requires |raw| > 0 && decode(FixPadding(raw)).None?
    ensures DecodePath(decode, raw).decoded == raw
    ensures Flagged(decode, raw) <==> !IsPadDigit(Last(raw))
  {
    FixPaddingChangesIffDigit(raw);
  }

  /** Classification after a successful decode: flagged exactly when the
      decoded text happens to equal the fixed path. */
  lemma SuccessfulDecodeFlaggedIffIdentity(decode: string -> Option<string>, raw: string, text: string)
    requires |raw| > 0 && decode(FixPadding(raw)) == Some(text)
    ensures DecodePath(decode, raw).decoded == text
    ensures Flagged(decode, raw) <==> text == FixPadding(raw)
  {
  }

  /** Index round trip: a path stored as compacted base64 of `text` decodes
      back to `text`, and is flagged only if `text` equals its own encoding. */
  lemma CompactedPathDecodes(decode: string -> Option<string>, b64: string, text: string)
    requires decode(b64) == Some(text)
    ensures DecodePath(decode, CompactPadding(b64)).decoded == text
    ensures Flagged(decode, CompactPadding(b64)) <==> text == b64
  {
    FixPaddingInvertsCompaction(b64);
  }
}
