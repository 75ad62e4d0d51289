/** The few JavaScript string primitives the core relies on: `trim`, `toLowerCase`
    and `Array.prototype.join` on strings. */
module Text {

  /** The characters `String.prototype.trim` removes: ECMAScript WhiteSpace and
      LineTerminator code points. */
  predicate IsSpace(c: char)
  {
    c == '\t' || c == '\n' || c == '\U{B}' || c == '\U{C}' || c == '\r' || c == ' '
    || c == '\U{A0}' || c == '\U{1680}' || ('\U{2000}' <= c <= '\U{200A}')
    || c == '\U{2028}' || c == '\U{2029}' || c == '\U{202F}' || c == '\U{205F}'
    || c == '\U{3000}' || c == '\U{FEFF}'
  }

  predicate AllSpace(s: string)
  {
    forall i :: 0 <= i < |s| ==> IsSpace(s[i])
  }

  /** Drops leading white space. */
  function TrimStart(s: string): (r: string)
    ensures |r| <= |s| && r == s[|s| - |r|..]
    ensures AllSpace(s[..|s| - |r|])
    ensures |r| > 0 ==> !IsSpace(r[0])
  {
    if |s| > 0 && IsSpace(s[0]) then TrimStart(s[1..]) else s
  }

  /** Drops trailing white space. */
  function TrimEnd(s: string): (r: string)
    ensures |r| <= |s| && r == s[..|r|]
    ensures AllSpace(s[|r|..])
    ensures |r| > 0 ==> !IsSpace(r[|r| - 1])
  {
    if |s| > 0 && IsSpace(s[|s| - 1]) then TrimEnd(s[..|s| - 1]) else s
  }

  /** `String.prototype.trim`: the longest infix with no white space at either end
      (`TrimIsInfix`). */
  function Trim(s: string): (r: string)
    ensures |r| <= |s|
    ensures |r| > 0 ==> !IsSpace(r[0]) && !IsSpace(r[|r| - 1])
  {
    TrimEnd(TrimStart(s))
  }

  /** `r` sits at offset `a` of `s`, with only white space before and after it. */
  predicate InfixBetweenSpace(s: string, a: int, r: string)
  {
    0 <= a <= |s| - |r| && r == s[a..a + |r|] && AllSpace(s[..a]) && AllSpace(s[a + |r|..])
  }

  /** The trim is what is left of the input once an all-white-space prefix and an
      all-white-space suffix are cut off. */
  lemma TrimIsInfix(s: string)
    ensures exists a :: InfixBetweenSpace(s, a, Trim(s))
  {
    var t := TrimStart(s);
    SpaceCutIsInfix(s, t, TrimEnd(t));
    assert InfixBetweenSpace(s, |s| - |t|, Trim(s));
  }

  /** A white-space suffix cut from a suffix after a white-space prefix leaves an infix
      between white space. */
  lemma SpaceCutIsInfix(s: string, t: string, r: string)
    requires |r| <= |t| <= |s|
    requires t == s[|s| - |t|..] && AllSpace(s[..|s| - |t|])
    requires r == t[..|r|] && AllSpace(t[|r|..])
    ensures InfixBetweenSpace(s, |s| - |t|, r)
  {
    var a := |s| - |t|;
    assert s[a..a + |r|] == t[..|r|];
    assert s[a + |r|..] == t[|r|..];
  }

  /** Leading white space does not change what `TrimStart` keeps. */
  lemma {:induction false} TrimStartSpacePrefix(ws: string, s: string)
    requires AllSpace(ws)
    ensures TrimStart(ws + s) == TrimStart(s)
  {
    if |ws| > 0 {
      assert (ws + s)[1..] == ws[1..] + s;
      TrimStartSpacePrefix(ws[1..], s);
    } else {
      assert ws + s == s;
    }
  }

  /** Trailing white space does not change what `TrimEnd` keeps. */
  lemma {:induction false} TrimEndSpaceSuffix(s: string, ws: string)
    requires AllSpace(ws)
    ensures TrimEnd(s + ws) == TrimEnd(s)
  {
    if |ws| > 0 {
      assert (s + ws)[..|s + ws| - 1] == s + ws[..|ws| - 1];
      TrimEndSpaceSuffix(s, ws[..|ws| - 1]);
    } else {
      assert s + ws == s;
    }
  }

  /** Trailing white space survives `TrimStart` unless everything is blank. */
  lemma {:induction false} TrimStartKeepsSuffix(s: string, ws: string)
    requires AllSpace(ws)
    ensures TrimStart(s + ws) == TrimStart(s) + ws || (AllSpace(s) && TrimStart(s + ws) == [])
  {
    if |s| > 0 && IsSpace(s[0]) {
      assert (s + ws)[1..] == s[1..] + ws;
      TrimStartKeepsSuffix(s[1..], ws);
    } else if |s| == 0 {
      assert s + ws == ws;
      TrimStartAllSpace(ws);
    } else {
      assert (s + ws)[0] == s[0];
    }
  }

  lemma {:induction false} TrimStartAllSpace(s: string)
    requires AllSpace(s)
    ensures TrimStart(s) == []
  {
    if |s| > 0 {
      TrimStartAllSpace(s[1..]);
    }
  }

  /** Surrounding white space of any kind does not change the trimmed text. */
  lemma TrimIgnoresSurroundingSpace(lead: string, s: string, trail: string)
    requires AllSpace(lead) && AllSpace(trail)
    ensures Trim(lead + s + trail) == Trim(s)
  {
    assert lead + s + trail == lead + (s + trail);
    TrimStartSpacePrefix(lead, s + trail);
    TrimStartKeepsSuffix(s, trail);
    if TrimStart(s + trail) == TrimStart(s) + trail {
      TrimEndSpaceSuffix(TrimStart(s), trail);
    } else {
      TrimStartAllSpace(s);
    }
  }

  /** Text with no white space at either end is its own trim. */
  lemma TrimOfTrimmed(s: string)
    requires |s| > 0 ==> !IsSpace(s[0]) && !IsSpace(s[|s| - 1])
    ensures Trim(s) == s
  {
  }

  /** `toLowerCase` on one character, for the ASCII letters. */
  function LowerChar(c: char): (r: char)
    ensures 'A' <= c <= 'Z' ==> r != c && 'a' <= r <= 'z' && r as int - 'a' as int == c as int - 'A' as int
    ensures !('A' <= c <= 'Z') ==> r == c
  {
    if 'A' <= c <= 'Z' then (c as int - 'A' as int + 'a' as int) as char else c
  }

  /** `String.prototype.toLowerCase`, restricted to ASCII letters. */
  function Lower(s: string): (r: string)
    ensures |r| == |s|
    ensures forall i :: 0 <= i < |s| ==> r[i] == LowerChar(s[i])
  {
    if |s| == 0 then [] else [LowerChar(s[0])] + Lower(s[1..])
  }

  /** `Array.prototype.join(sep)` over strings: nothing for no parts, the parts
      separated by `sep` otherwise. */
  function Join(sep: string, parts: seq<string>): string
  {
    if |parts| == 0 then []
    else if |parts| == 1 then parts[0]
    else parts[0] + sep + Join(sep, parts[1..])
  }
}
