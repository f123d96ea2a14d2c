/** The header block handed to the header parser while indexing: the bytes of
    a message up to its first blank line (LF LF, failing that CR LF CR LF),
    or its first 4096 bytes when it has no blank line. */
module HeaderCut {
  import opened Common

  /** `b"\n\n"` */
  const BlankLine: seq<byte> := [10, 10]
  /** `b"\r\n\r\n"` */
  const CrlfBlankLine: seq<byte> := [13, 10, 13, 10]
  /** The cap on the header block when no blank line is found. */
  const MaxHeaderBytes: nat := 4096

  /** `i` is the first position at which `pat` occurs in `s`. */
  predicate FirstOccurrence(s: seq<byte>, pat: seq<byte>, i: int)
  {
    OccursAt(s, pat, i) && forall j :: 0 <= j < i ==> !OccursAt(s, pat, j)
  }

  /** Search `s` for `pat` from position `k` on. */
  function FindFrom(s: seq<byte>, pat: seq<byte>, k: nat): (r: int)
    ensures r == -1 <==> forall j :: k <= j ==> !OccursAt(s, pat, j)
    ensures r != -1 ==>
      && k <= r && OccursAt(s, pat, r)
      && forall j :: k <= j < r ==> !OccursAt(s, pat, j)
    decreases |s| - k
  {
    if k + |pat| > |s| then -1
    else if s[k..k + |pat|] == pat then assert OccursAt(s, pat, k); k
    else FindFrom(s, pat, k + 1)
  }

  /** Python's `bytes.find`: the first position of `pat` in `s`, or -1. */
  function Find(s: seq<byte>, pat: seq<byte>): (r: int)
    ensures r == -1 <==> forall j :: !OccursAt(s, pat, j)
    ensures r != -1 ==> FirstOccurrence(s, pat, r)
  {
    FindFrom(s, pat, 0)
  }

  /** The header block of one raw message (the cut made before parsing). */
  function HeaderBlock(raw: seq<byte>): (h: seq<byte>)
    ensures h <= raw
    ensures (exists i :: OccursAt(raw, BlankLine, i)) ==> FirstOccurrence(raw, BlankLine, |h|)
    ensures (forall i :: !OccursAt(raw, BlankLine, i)) && (exists i :: OccursAt(raw, CrlfBlankLine, i))
      ==> FirstOccurrence(raw, CrlfBlankLine, |h|)
    ensures (forall i :: !OccursAt(raw, BlankLine, i)) && (forall i :: !OccursAt(raw, CrlfBlankLine, i))
      ==> |h| == Min(MaxHeaderBytes, |raw|)
  {
    var lf := Find(raw, BlankLine);
    var headerEnd := if lf == -1 then Find(raw, CrlfBlankLine) else lf;
    if headerEnd != -1 then raw[..headerEnd] else raw[..Min(MaxHeaderBytes, |raw|)]
  }
}
