/** SQLite's `LIKE` operator as the sender and subject filters use it:
    `%` matches any run of characters, `_` any one character, and other
    characters match ignoring ASCII case (there is no ESCAPE clause). */
module SqlLike {
  import opened Common

  predicate Like(p: string, s: string)
    decreases |p| + |s|
  {
    if |p| == 0 then |s| == 0
    else if p[0] == '%' then Like(p[1..], s) || (|s| > 0 && Like(p, s[1..]))
    else |s| > 0 && (p[0] == '_' || LowerChar(p[0]) == LowerChar(s[0])) && Like(p[1..], s[1..])
  }

  /** The text holds neither of the two wildcard characters. */
  predicate NoWildcards(n: string)
  {
    forall i :: 0 <= i < |n| ==> n[i] != '%' && n[i] != '_'
  }

  /** The pattern bound for a substring filter: `f"%{needle}%"`. */
  function Wrap(needle: string): (p: string)
    ensures |p| == |needle| + 2 && p[0] == '%' && p[|p| - 1] == '%'
  {
    "%" + needle + "%"
  }

  /** A lone `%` matches every text. */
  lemma {:induction false} PercentMatchesAll(t: string)
    ensures Like("%", t)
    decreases |t|
  {
    assert "%"[1..] == "";
    if |t| > 0 {
      PercentMatchesAll(t[1..]);
    }
  }

  /** A wildcard-free pattern followed by `%` matches exactly the texts that
      start with it, ignoring ASCII case. */
  lemma {:induction false} LiteralThenPercent(n: string, t: string)
    requires NoWildcards(n)
    ensures Like(n + "%", t) <==> |n| <= |t| && Lower(t[..|n|]) == Lower(n)
    decreases |n|
  {
    if |n| == 0 {
      assert n + "%" == "%";
      PercentMatchesAll(t);
      assert t[..0] == [];
    } else {
      var p := n + "%";
      assert p[0] == n[0] && p[1..] == n[1..] + "%";
      if |t| > 0 {
        LiteralThenPercent(n[1..], t[1..]);
        if |n| <= |t| {
          var a := t[..|n|];
          assert a[1..] == t[1..][..|n| - 1];
          assert Lower(a) == Lower(n) <==> LowerChar(a[0]) == LowerChar(n[0]) && Lower(a[1..]) == Lower(n[1..]) by {
            if LowerChar(a[0]) == LowerChar(n[0]) && Lower(a[1..]) == Lower(n[1..]) {
              forall i | 0 <= i < |n|
                ensures Lower(a)[i] == Lower(n)[i]
              {
                if i > 0 {
                  assert Lower(a[1..])[i - 1] == Lower(n[1..])[i - 1];
                }
              }
            }
            if Lower(a) == Lower(n) {
              forall i | 0 <= i < |n| - 1
                ensures Lower(a[1..])[i] == Lower(n[1..])[i]
              {
                assert Lower(a)[i + 1] == Lower(n)[i + 1];
              }
              assert Lower(a)[0] == Lower(n)[0];
            }
          }
        }
      }
    }
  }

  /** A leading `%` lets the rest of the pattern match any suffix. */
  lemma {:induction false} PercentThen(q: string, s: string)
    ensures Like("%" + q, s) <==> exists k :: 0 <= k <= |s| && Like(q, s[k..])
    decreases |s|
  {
    var p := "%" + q;
    assert p[1..] == q;
    assert s[0..] == s;
    if |s| > 0 {
      PercentThen(q, s[1..]);
      if Like(p, s[1..]) {
        var k :| 0 <= k <= |s[1..]| && Like(q, s[1..][k..]);
        assert s[1..][k..] == s[k + 1..];
      }
      if exists k :: 0 <= k <= |s| && Like(q, s[k..]) {
        var k :| 0 <= k <= |s| && Like(q, s[k..]);
        if k > 0 {
          assert s[1..][k - 1..] == s[k..];
        }
      }
    }
  }

  /** `needle%` matches the suffix at `k` exactly when the needle occurs at `k`. */
  lemma SuffixMatchIsOccurrence(needle: string, s: string, k: nat)
    requires NoWildcards(needle) && k <= |s|
    ensures Like(needle + "%", s[k..]) <==> OccursAt(Lower(s), Lower(needle), k)
  {
    var n := |needle|;
    LiteralThenPercent(needle, s[k..]);
    if k + n <= |s| {
      assert s[k..][..n] == s[k..k + n];
      LowerSlice(s, k, k + n);
    }
  }

  /** For a needle without wildcards, `LIKE '%needle%'` is exactly a
      case-insensitive (ASCII) substring test. */
  lemma LikeIsSubstring(needle: string, s: string)
    requires NoWildcards(needle)
    ensures Like(Wrap(needle), s) <==> ContainsNoCase(s, needle)
  {
    assert Wrap(needle) == "%" + (needle + "%");
    PercentThen(needle + "%", s);
    if Like(Wrap(needle), s) {
      var k :| 0 <= k <= |s| && Like(needle + "%", s[k..]);
      SuffixMatchIsOccurrence(needle, s, k);
    }
    if ContainsNoCase(s, needle) {
      var k :| 0 <= k <= |Lower(s)| - |Lower(needle)| && OccursAt(Lower(s), Lower(needle), k);
      SuffixMatchIsOccurrence(needle, s, k);
    }
  }

  /** With a wildcard in the needle the filter is no longer a substring test:
      `_` matches any character. */
  lemma UnderscoreIsWildcard()
    ensures Like(Wrap("a_c"), "abc")
    ensures !ContainsNoCase("abc", "a_c")
  {
    var p := Wrap("a_c");
    assert p == "%a_c%";
    assert p[1..] == "a_c%";
    assert "a_c%"[1..] == "_c%" && "_c%"[1..] == "c%" && "c%"[1..] == "%";
    assert "abc"[1..] == "bc" && "bc"[1..] == "c" && "c"[1..] == "";
    PercentMatchesAll("");
    assert Like("%", "");
    assert Like("c%", "c");
    assert Like("_c%", "bc");
    assert Like("a_c%", "abc");
    assert Lower("abc") == "abc";
    assert Lower("a_c") == "a_c";
  }
}
