/** The result loop of `main`: each row `search_index` returns is re-read
    from the archive when a body filter is given and kept only if the message
    parses and its body text contains the needle ignoring case; kept rows are
    counted, and, unless only counting, emitted with their stripped body
    (unless `--no-body`) until `found >= limit`. Also the whitespace strip and
    the 500-character preview of a shown body. */
module Results {
  import opened Common
  import opened Scanner
  import opened Query
  import opened Mime

  /** What `email.message_from_bytes` yields: the header count (a message's
      Python truth value is its number of headers) and the MIME tree. */
  datatype Message = Message(headerCount: nat, root: Mime)

  /** `read_msg_at` for one row: the message at the row's extent, or `None`
      when parsing raised. */
  type Reader = Record -> Option<Message>

  /** One emitted result: the row, and its shown body unless `--no-body`. */
  datatype Hit = Hit(row: Record, body: Option<string>)

  // ---------------------------------------------------------------------
  // Whitespace strip and preview

  /** Python's `str.isspace` for one character. */
  predicate IsSpace(c: char)
  {
    || c == ' '
    || '\t' <= c <= '\r'
    || '\U{1c}' <= c <= '\U{1f}'
    || c == '\U{85}' || c == '\U{a0}' || c == '\U{1680}'
    || '\U{2000}' <= c <= '\U{200a}'
    || c == '\U{2028}' || c == '\U{2029}' || c == '\U{202f}' || c == '\U{205f}' || c == '\U{3000}'
  }

  /** Number of leading whitespace characters. */
  function Lead(s: string): (n: nat)
    ensures n <= |s|
    ensures forall k :: 0 <= k < n ==> IsSpace(s[k])
    ensures n < |s| ==> !IsSpace(s[n])
  {
    if |s| == 0 || !IsSpace(s[0]) then 0 else 1 + Lead(s[1..])
  }

  /** Number of trailing whitespace characters. */
  function Trail(s: string): (n: nat)
    ensures n <= |s|
    ensures forall k :: |s| - n <= k < |s| ==> IsSpace(s[k])
    ensures n < |s| ==> !IsSpace(s[|s| - n - 1])
  {
    if |s| == 0 || !IsSpace(s[|s| - 1]) then 0 else 1 + Trail(s[..|s| - 1])
  }

  /** The bounds `str.strip()` keeps: everything outside is whitespace, and
      the kept text is empty or starts and ends with a non-space. */
  function StripRange(s: string): (r: (nat, nat))
    ensures r.0 <= r.1 <= |s|
    ensures forall k :: 0 <= k < r.0 ==> IsSpace(s[k])
    ensures forall k :: r.1 <= k < |s| ==> IsSpace(s[k])
    ensures r.0 < r.1 ==> !IsSpace(s[r.0]) && !IsSpace(s[r.1 - 1])
    ensures r.0 == r.1 ==> forall k :: 0 <= k < |s| ==> IsSpace(s[k])
  {
    var lo := Lead(s);
    if lo == |s| then (lo, lo) else (lo, |s| - Trail(s))
  }

  /** Python's `str.strip()`: the input with its leading and trailing
      whitespace removed. */
  function Strip(s: string): (r: string)
    ensures exists lo, hi ::
              && 0 <= lo <= hi <= |s| && r == s[lo..hi]
              && (forall k :: 0 <= k < lo || hi <= k < |s| ==> IsSpace(s[k]))
    ensures |r| > 0 ==> !IsSpace(r[0]) && !IsSpace(r[|r| - 1])
    ensures |r| == 0 ==> forall k :: 0 <= k < |s| ==> IsSpace(s[k])
  {
    var r := StripRange(s);
    s[r.0..r.1]
  }

  /** Stripping keeps a text that neither starts nor ends with whitespace,
      and so stripping twice is stripping once. */
  lemma StripKeepsTrimmed(s: string)
    ensures |s| > 0 && !IsSpace(s[0]) && !IsSpace(s[|s| - 1]) ==> Strip(s) == s
    ensures |s| == 0 ==> Strip(s) == s
    ensures Strip(Strip(s)) == Strip(s)
  {
    var t := Strip(s);
    if |t| > 0 {
      var r := StripRange(t);
      assert r.0 == 0;
      assert r.1 == |t|;
    }
  }

  const PreviewLength: nat := 500

  /** `body[:500]`: the shown preview of a body. */
  function Preview(body: string): (p: string)
    ensures p <= body
    ensures |p| == Min(PreviewLength, |body|)
  {
    body[..Min(PreviewLength, |body|)]
  }

  /** The JSON form `body[:500] if len(body) > 500 else body` is the same
      preview, and the text form's "chars total" note (shown when
      `len(body) > 500`) appears exactly when the preview cut something. */
  lemma PreviewForms(body: string)
    ensures (if |body| > PreviewLength then body[..PreviewLength] else body) == Preview(body)
    ensures Preview(body) != body <==> |body| > PreviewLength
  {
    if |body| <= PreviewLength {
      assert body[..|body|] == body;
    }
  }

  // ---------------------------------------------------------------------
  // The body filter and the shown body

  /** A row survives the body filter: no (non-empty) needle, or the message
      parses and its body text contains the needle ignoring case. */
  predicate Keeps(a: SearchArgs, read: Reader, row: Record)
  {
    !Given(a.body) || (read(row).Some? && ContainsNoCase(BodyText(read(row).value.root), a.body.value))
  }

  function KeepPred(a: SearchArgs, read: Reader): Record -> bool
  {
    (row: Record) => Keeps(a, read, row)
  }

  /** The body shown for a row, as written: `get_body_text(msg).strip() if
      msg else ""`, where a message with no headers is false. It agrees with
      the intended `ShownBody` except on a message read without headers. */
  function ShownBodyAsWritten(msg: Option<Message>): (text: string)
    ensures msg.Some? && msg.value.headerCount > 0 ==> text == ShownBody(msg)
    ensures msg.None? ==> text == ShownBody(msg)
    ensures msg.Some? && msg.value.headerCount == 0 ==> text == ""
  {
    if msg.Some? && msg.value.headerCount > 0 then Strip(BodyText(msg.value.root)) else ""
  }

  /** The body shown for a row, as intended: the stripped body text of any
      message that was read, and empty only when reading failed or that text
      is all whitespace. */
  function ShownBody(msg: Option<Message>): (text: string)
    ensures msg.Some? ==> text == Strip(BodyText(msg.value.root))
    ensures msg.Some? ==> Strip(text) == text
    ensures msg.None? ==> text == ""
  {
    if msg.Some? then
      StripKeepsTrimmed(BodyText(msg.value.root));
      Strip(BodyText(msg.value.root))
    else ""
  }

  /** Lower-casing never makes or unmakes whitespace. */
  lemma LowerCharSpace(c: char)
    ensures IsSpace(LowerChar(c)) <==> IsSpace(c)
  {
  }

  /** A needle that neither starts nor ends with whitespace and occurs in a
      text (ignoring case) still occurs after the text is stripped. */
  lemma StripKeepsNeedle(text: string, needle: string)
    requires |needle| > 0 && !IsSpace(needle[0]) && !IsSpace(needle[|needle| - 1])
    requires ContainsNoCase(text, needle)
    ensures ContainsNoCase(Strip(text), needle)
  {
    var lt, ln := Lower(text), Lower(needle);
    var i :| 0 <= i <= |lt| - |ln| && OccursAt(lt, ln, i);
    NeedleWithinStrip(text, needle, i);
    var r := StripRange(text);
    LowerSlice(text, r.0, r.1);
    OccursInSlice(lt, ln, r.0, r.1, i);
    assert OccursAt(Lower(Strip(text)), ln, i - r.0);
  }

  /** An occurrence whose ends are not whitespace lies inside the kept run. */
  lemma NeedleWithinStrip(text: string, needle: string, i: nat)
    requires |needle| > 0 && !IsSpace(needle[0]) && !IsSpace(needle[|needle| - 1])
    requires OccursAt(Lower(text), Lower(needle), i)
    ensures StripRange(text).0 <= i && i + |needle| <= StripRange(text).1
  {
    var lt, ln := Lower(text), Lower(needle);
    var last := i + |needle| - 1;
    assert lt[i] == ln[0] && lt[last] == ln[|needle| - 1] by {
      assert lt[i..i + |ln|][0] == ln[0];
      assert lt[i..i + |ln|][|needle| - 1] == ln[|needle| - 1];
    }
    LowerCharSpace(needle[0]);
    LowerCharSpace(needle[|needle| - 1]);
    LowerCharSpace(text[i]);
    LowerCharSpace(text[last]);
  }

  /** With the intended test, a message the body filter keeps (it was read,
      and its body text contains the needle ignoring case: `Keeps` for a
      given needle) is shown with a body that still contains the needle,
      whenever the needle neither starts nor ends with whitespace. */
  lemma KeptBodyShowsNeedle(msg: Option<Message>, needle: string)
    requires |needle| > 0 && !IsSpace(needle[0]) && !IsSpace(needle[|needle| - 1])
    requires msg.Some? && ContainsNoCase(BodyText(msg.value.root), needle)
    ensures ContainsNoCase(ShownBody(msg), needle)
  {
    StripKeepsNeedle(BodyText(msg.value.root), needle);
  }

  /** As written, a message without headers (an mbox entry whose `From ` line
      is followed straight by the blank line) passes the body filter, since
      that test is `msg is None`, yet is shown with an empty body, since the
      display test is the message's truth value. */
  lemma HeaderlessMessageLosesBody()
    ensures var msg := Some(Message(0, Leaf("text/plain", [0x68, 0x65, 0x6c, 0x6c, 0x6f], "hello")));
      && var a := SearchArgs(None, None, None, None, Some("hello"), 10, false, false);
      && Keeps(a, _ => msg, Record(0, 1, None, None, "", ""))
      && ShownBodyAsWritten(msg) == ""
      && ShownBody(msg) == "hello"
  {
    HelloFindsHello();
    HelloIsTrimmed();
  }

  lemma HelloFindsHello()
    ensures ContainsNoCase("hello", "hello")
  {
    assert Lower("hello") == "hello";
    assert OccursAt(Lower("hello"), Lower("hello"), 0);
  }

  lemma HelloIsTrimmed()
    ensures Strip("hello") == "hello"
  {
    assert !IsSpace('h') && !IsSpace('o');
    StripKeepsTrimmed("hello");
  }

  // ---------------------------------------------------------------------
  // The loop

  /** The emitted form of a kept row, with the body as line 359 shows it. */
  function HitFor(a: SearchArgs, read: Reader, row: Record): (h: Hit)
    ensures h.row == row
    ensures h.body.None? <==> a.noBody
    ensures h.body.Some? ==> h.body.value == ShownBodyAsWritten(read(row))
  {
    Hit(row, if a.noBody then None else Some(ShownBodyAsWritten(read(row))))
  }

  function HitsFor(a: SearchArgs, read: Reader, rows: seq<Record>): (hs: seq<Hit>)
    ensures |hs| == |rows|
    ensures forall k :: 0 <= k < |rows| ==> hs[k] == HitFor(a, read, rows[k])
  {
    seq(|rows|, k requires 0 <= k < |rows| => HitFor(a, read, rows[k]))
  }

  /** Rows that survive the body filter and hold the found count so far. */
  lemma KeptSoFar(rows: seq<Record>, i: nat, p: Record -> bool)
    requires i < |rows|
    ensures rows[..i + 1] == rows[..i] + [rows[i]]
    ensures Filter(rows[..i + 1], p) == if p(rows[i]) then Filter(rows[..i], p) + [rows[i]] else Filter(rows[..i], p)
  {
    assert rows[..i + 1] == rows[..i] + [rows[i]];
    FilterSnoc(rows[..i], rows[i], p);
  }

  /** The `if args.body:` block: re-read the message and test its body. */
  method BodyFilter(a: SearchArgs, read: Reader, row: Record) returns (keep: bool)
    ensures keep == KeepPred(a, read)(row)
  {
    keep := true;
    if Given(a.body) {
      var msg := read(row);
      if msg.None? {
        keep := false;
      } else if !Contains(Lower(BodyText(msg.value.root)), Lower(a.body.value)) {
        keep := false;
      }
    }
  }

  /** The body fetched for display: none when counting or under `--no-body`,
      else the stripped body text of a message that is read and has headers,
      and the empty text otherwise. */
  method FetchBody(a: SearchArgs, read: Reader, row: Record) returns (body: Option<string>)
    ensures a.count ==> body.None?
    ensures !a.count ==> body == HitFor(a, read, row).body
  {
    body := None;
    if !a.count && !a.noBody {
      var msg := read(row);
      if msg.Some? && msg.value.headerCount > 0 {
        body := Some(Strip(BodyText(msg.value.root)));
      } else {
        body := Some("");
      }
    }
  }

  /** The loop over the query rows. Under `--count` nothing is emitted and
      `found` is the number of rows that survive the body filter. Otherwise
      the first surviving rows are emitted in order, and the loop stops once
      `found >= limit`; as that test follows the increment, a limit of zero
      or less still lets one row through. */
  method EmitResults(rows: seq<Record>, a: SearchArgs, read: Reader) returns (hits: seq<Hit>, found: nat)
    ensures a.count ==> found == |Filter(rows, KeepPred(a, read))| && hits == []
    ensures !a.count ==> found == Min(Max(a.limit, 1), |Filter(rows, KeepPred(a, read))|)
    ensures !a.count ==> hits == HitsFor(a, read, Filter(rows, KeepPred(a, read))[..found])
  {
    hits, found := [], 0;
    var i := 0;
    var stop := false;
    while i < |rows| && !stop
      invariant Emitted(rows, a, read, i, hits, found, stop)
    {
      hits, found, stop := EmitRow(rows, a, read, i, hits, found, stop);
      i := i + 1;
    }
    LoopExit(rows, i, KeepPred(a, read), found, stop, a.count, a.limit);
  }

  /** What the loop keeps after the first `i` rows: `found` counts the rows
      the body filter kept, the hits are those rows' forms, and `stop` is set
      exactly when the limit was reached. */
  ghost predicate Emitted(rows: seq<Record>, a: SearchArgs, read: Reader, i: nat,
                          hits: seq<Hit>, found: nat, stop: bool)
  {
    && i <= |rows|
    && found == |Filter(rows[..i], KeepPred(a, read))|
    && (a.count ==> hits == [] && !stop)
    && (!a.count ==> hits == HitsFor(a, read, Filter(rows[..i], KeepPred(a, read))))
    && (!a.count && !stop ==> found < Max(a.limit, 1))
    && (stop ==> found == Max(a.limit, 1))
  }

  /** One turn of the loop, on row `i`. */
  method EmitRow(rows: seq<Record>, a: SearchArgs, read: Reader, i: nat,
                 hits: seq<Hit>, found: nat, stop: bool)
    returns (hits': seq<Hit>, found': nat, stop': bool)
    requires i < |rows| && !stop
    requires Emitted(rows, a, read, i, hits, found, stop)
    ensures Emitted(rows, a, read, i + 1, hits', found', stop')
  {
    ghost var p := KeepPred(a, read);
    hits', found', stop' := hits, found, stop;
    var row := rows[i];
    KeptSoFar(rows, i, p);
    var keep := BodyFilter(a, read, row);
    if keep {
      found' := found + 1;
      var body := FetchBody(a, read, row);
      if !a.count {
        HitsForSnoc(a, read, Filter(rows[..i], p), row);
        hits' := hits + [Hit(row, body)];
      }
      if !a.count && found' >= a.limit {
        stop' := true;
      }
    }
  }

  lemma HitsForSnoc(a: SearchArgs, read: Reader, rows: seq<Record>, row: Record)
    ensures HitsFor(a, read, rows + [row]) == HitsFor(a, read, rows) + [HitFor(a, read, row)]
  {
  }

  /** Where the loop leaves off: all rows seen, or stopped at the limit. */
  lemma LoopExit(rows: seq<Record>, i: nat, p: Record -> bool, found: nat, stop: bool, count: bool, limit: int)
    requires i <= |rows| && (i == |rows| || stop)
    requires found == |Filter(rows[..i], p)|
    requires count ==> !stop
    requires !count && !stop ==> found < Max(limit, 1)
    requires stop ==> found == Max(limit, 1)
    ensures count ==> found == |Filter(rows, p)|
    ensures !count ==> found == Min(Max(limit, 1), |Filter(rows, p)|)
    ensures Filter(rows, p)[..found] == Filter(rows[..i], p)
  {
    FilterPrefix(rows, i, p);
    if !stop {
      assert rows[..i] == rows;
    }
  }
}
