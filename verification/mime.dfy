/** `get_body_text`: the text shown and searched for a message. A multipart
    message is walked in pre-order (the node itself, then each part's walk in
    turn); the first `text/plain` node with a non-empty payload wins, else the
    first such `text/html` node, else the empty text. A message that is not
    multipart answers with its own payload whatever its content type.

    The selection looks at the payload bytes (`if payload:`), and the winner
    is then decoded with its charset. The two can disagree: bytes that are
    only a byte-order mark are non-empty yet decode to the empty text, and the
    search stops there all the same. */
module Mime {
  import opened Common

  /** A parsed MIME node; `contentType` is the lower-case `maintype/subtype`
      the library reports. A leaf holds its payload as `get_payload(decode=True)`
      gives it (transfer encoding undone) and `text`, what decoding those bytes
      with the node's charset gives; the charset codecs are not modelled, so
      `text` may be any string, the empty one included. */
  datatype Mime =
    | Leaf(contentType: string, payload: seq<byte>, text: string)
    | Multipart(contentType: string, parts: seq<Mime>)

  const TextPlain: string := "text/plain"
  const TextHtml: string := "text/html"

  /** `msg.walk()`: the node, then the walk of each part in order. */
  function Walk(m: Mime): (ns: seq<Mime>)
    decreases m
    ensures |ns| > 0 && ns[0] == m
  {
    match m
    case Leaf(_, _, _) => [m]
    case Multipart(_, parts) => [m] + WalkAll(parts)
  }

  function WalkAll(ms: seq<Mime>): seq<Mime>
    decreases ms
  {
    if |ms| == 0 then [] else Walk(ms[0]) + WalkAll(ms[1..])
  }

  /** `part.get_payload(decode=True)`: a multipart node has no payload. */
  function Payload(m: Mime): seq<byte>
  {
    match m
    case Leaf(_, p, _) => p
    case Multipart(_, _) => []
  }

  /** `payload.decode(charset, errors="replace")` for a node. */
  function Decoded(m: Mime): string
  {
    match m
    case Leaf(_, _, t) => t
    case Multipart(_, _) => ""
  }

  /** A node the selection would take for `ctype`: right type, non-empty payload. */
  predicate Usable(m: Mime, ctype: string)
  {
    m.contentType == ctype && |Payload(m)| > 0
  }

  /** Node `i` is the first usable one for `ctype`. */
  predicate FirstOfType(ns: seq<Mime>, i: int, ctype: string)
  {
    && 0 <= i < |ns|
    && Usable(ns[i], ctype)
    && forall j :: 0 <= j < i ==> !Usable(ns[j], ctype)
  }

  /** No node is usable for `ctype`. */
  predicate NoneOfType(ns: seq<Mime>, ctype: string)
  {
    forall j :: 0 <= j < |ns| ==> !Usable(ns[j], ctype)
  }

  /** Position of the first usable node for `ctype`, or -1. */
  function FirstUsable(ns: seq<Mime>, ctype: string): (k: int)
    ensures k == -1 <==> NoneOfType(ns, ctype)
    ensures k != -1 ==> FirstOfType(ns, k, ctype)
  {
    if |ns| == 0 then -1
    else if Usable(ns[0], ctype) then 0
    else
      var k := FirstUsable(ns[1..], ctype);
      if k == -1 then -1 else k + 1
  }

  /** The body text `get_body_text` returns. */
  function BodyText(m: Mime): (text: string)
    ensures m.Leaf? && |m.payload| == 0 ==> text == ""
    ensures m.Leaf? && |m.payload| > 0 ==> text == m.text
    ensures m.Multipart? && |text| > 0 ==>
      exists n :: n in Walk(m) && (Usable(n, TextPlain) || Usable(n, TextHtml)) && text == Decoded(n)
  {
    match m
    case Leaf(_, p, t) => if |p| > 0 then t else ""
    case Multipart(_, _) =>
      var ns := Walk(m);
      var plain := FirstUsable(ns, TextPlain);
      if plain != -1 then Decoded(ns[plain])
      else
        var html := FirstUsable(ns, TextHtml);
        if html != -1 then Decoded(ns[html]) else ""
  }

  /** For a multipart message the plain text comes first: when any node of the
      walk is usable `text/plain`, the body is the first such payload in walk
      order; only when none is does `text/html` get a say; and the body is
      empty when neither kind has a usable node. A usable node is decoded
      even when that gives the empty text: the walk does not go on. */
  lemma BodyTextPreference(m: Mime)
    requires m.Multipart?
    ensures forall i :: FirstOfType(Walk(m), i, TextPlain) ==> BodyText(m) == Decoded(Walk(m)[i])
    ensures NoneOfType(Walk(m), TextPlain) ==>
      forall i :: FirstOfType(Walk(m), i, TextHtml) ==> BodyText(m) == Decoded(Walk(m)[i])
    ensures NoneOfType(Walk(m), TextPlain) && NoneOfType(Walk(m), TextHtml) ==> BodyText(m) == ""
  {
    var ns := Walk(m);
    var plain := FirstUsable(ns, TextPlain);
    var html := FirstUsable(ns, TextHtml);
    forall i | FirstOfType(ns, i, TextPlain)
      ensures BodyText(m) == Decoded(ns[i])
    {
      assert plain == i;
    }
    if plain == -1 {
      forall i | FirstOfType(ns, i, TextHtml)
        ensures BodyText(m) == Decoded(ns[i])
      {
        assert html == i;
      }
    }
  }

  /** The root of a multipart message has no payload of its own, so the
      selection only ever takes a part: the body comes from inside one of
      the parts' walks. */
  lemma BodyTextFromPart(m: Mime)
    requires m.Multipart? && |BodyText(m)| > 0
    ensures exists k, n ::
              && 0 <= k < |m.parts| && n in Walk(m.parts[k])
              && (Usable(n, TextPlain) || Usable(n, TextHtml)) && BodyText(m) == Decoded(n)
  {
    var ns := Walk(m);
    var n :| n in ns && (Usable(n, TextPlain) || Usable(n, TextHtml)) && BodyText(m) == Decoded(n);
    assert n != m;
    assert n in WalkAll(m.parts);
    var k := PartContaining(m.parts, n);
  }

  /** Which part's walk a node of `WalkAll(ms)` comes from. */
  lemma {:induction false} PartContaining(ms: seq<Mime>, n: Mime) returns (k: nat)
    requires n in WalkAll(ms)
    ensures k < |ms| && n in Walk(ms[k])
  {
    if n in Walk(ms[0]) {
      k := 0;
    } else {
      var k' := PartContaining(ms[1..], n);
      k := k' + 1;
    }
  }

  /** An attachment-only multipart message (no text node at all) has an
      empty body, while a single-part message answers with its decoded
      payload even when that payload is not text. */
  lemma NonTextBodies(img: seq<byte>, shown: string)
    requires |img| > 0
    ensures BodyText(Multipart("multipart/mixed", [Leaf("image/png", img, shown)])) == ""
    ensures BodyText(Leaf("image/png", img, shown)) == shown
  {
    var leaf := Leaf("image/png", img, shown);
    var m := Multipart("multipart/mixed", [leaf]);
    assert WalkAll([leaf]) == [leaf];
    assert Walk(m) == [m, leaf];
    assert "image/png" != TextPlain && "image/png" != TextHtml;
    assert "multipart/mixed" != TextPlain && "multipart/mixed" != TextHtml;
  }

  /** A `text/plain` part whose bytes are only a UTF-16 byte-order mark is
      usable (its payload is non-empty), so it is chosen and its empty
      decoding is the body, although a later `text/html` part has text. */
  lemma ByteOrderMarkHidesHtml(html: seq<byte>, shown: string)
    requires |html| > 0
    ensures var bom := Leaf("text/plain", [0xff, 0xfe], "");
      BodyText(Multipart("multipart/alternative", [bom, Leaf("text/html", html, shown)])) == ""
  {
    var bom := Leaf("text/plain", [0xff, 0xfe], "");
    var page := Leaf("text/html", html, shown);
    var m := Multipart("multipart/alternative", [bom, page]);
    assert WalkAll([page]) == [page];
    assert WalkAll([bom, page]) == [bom, page];
    assert Walk(m) == [m, bom, page];
    assert "multipart/alternative" != TextPlain;
    assert FirstOfType(Walk(m), 1, TextPlain);
  }
}
