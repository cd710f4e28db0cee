/** The string primitives the player uses: ECMAScript `trim`, `toLowerCase`
    (ASCII letters only), `includes`, and the decimal rendering of a natural
    number that a template literal `${n}` produces. */
module Text {

  /** The characters `String.prototype.trim` removes: ECMAScript WhiteSpace
      (TAB, VT, FF, SP, NBSP, ZWNBSP and the Zs category) and LineTerminator
      (LF, CR, LS, PS). */
  predicate IsJsWhitespace(c: char) {
    c == '\t' || c == '\n' || c == '\U{B}' || c == '\U{C}' || c == '\r' ||
    c == ' ' || c == '\U{A0}' || c == '\U{1680}' ||
    ('\U{2000}' <= c <= '\U{200A}') ||
    c == '\U{2028}' || c == '\U{2029}' || c == '\U{202F}' || c == '\U{205F}' ||
    c == '\U{3000}' || c == '\U{FEFF}'
  }

  /** `s` with its leading whitespace removed. */
  function TrimStart(s: string): (r: string)
    ensures |r| <= |s| && r == s[|s| - |r|..]
    ensures forall i :: 0 <= i < |s| - |r| ==> IsJsWhitespace(s[i])
    ensures r == [] || !IsJsWhitespace(r[0])
  {
    if s == [] || !IsJsWhitespace(s[0]) then s else TrimStart(s[1..])
  }

  /** `s` with its trailing whitespace removed. */
  function TrimEnd(s: string): (r: string)
    ensures |r| <= |s| && r == s[..|r|]
    ensures forall i :: |r| <= i < |s| ==> IsJsWhitespace(s[i])
    ensures r == [] || !IsJsWhitespace(r[|r| - 1])
  {
    if s == [] || !IsJsWhitespace(s[|s| - 1]) then s else TrimEnd(s[..|s| - 1])
  }

  /** `String.prototype.trim`. */
  function Trim(s: string): string {
    TrimEnd(TrimStart(s))
  }

  /** Where the kept part of `s` starts: the number of leading whitespace
      characters. */
  function TrimLeft(s: string): nat {
    |s| - |TrimStart(s)|
  }

  /** Trim keeps a contiguous middle part of `s` and drops only whitespace
      around it. */
  lemma TrimIsCore(s: string)
    ensures TrimLeft(s) + |Trim(s)| <= |s|
    ensures Trim(s) == s[TrimLeft(s)..TrimLeft(s) + |Trim(s)|]
    ensures forall k :: 0 <= k < TrimLeft(s) ==> IsJsWhitespace(s[k])
    ensures forall k :: TrimLeft(s) + |Trim(s)| <= k < |s| ==> IsJsWhitespace(s[k])
  {
    var t := TrimStart(s);
    var i := |s| - |t|;
    TrimEndKeepsSuffixCore(s, i, t);
  }

  /** Trimming the end of a suffix `t == s[i..]` keeps a slice of `s` and
      drops only whitespace after it. */
  lemma TrimEndKeepsSuffixCore(s: string, i: nat, t: string)
    requires i <= |s| && t == s[i..]
    ensures i + |TrimEnd(t)| <= |s|
    ensures TrimEnd(t) == s[i..i + |TrimEnd(t)|]
    ensures forall k :: i + |TrimEnd(t)| <= k < |s| ==> IsJsWhitespace(s[k])
  {
    var e := TrimEnd(t);
    forall k | 0 <= k < |e| ensures e[k] == s[i + k] {
      assert e[k] == t[k];
    }
    forall k | i + |e| <= k < |s| ensures IsJsWhitespace(s[k]) {
      assert s[k] == t[k - i];
    }
  }

  /** What Trim keeps neither starts nor ends with whitespace. */
  lemma TrimEdges(s: string)
    ensures Trim(s) == [] || (!IsJsWhitespace(Trim(s)[0]) && !IsJsWhitespace(Trim(s)[|Trim(s)| - 1]))
  {
    var t := TrimStart(s);
    var e := TrimEnd(t);
    if e != [] {
      assert e[0] == t[0];
    }
  }

  /** Trimming twice is trimming once. */
  lemma TrimIdempotent(s: string)
    ensures Trim(Trim(s)) == Trim(s)
  {
    var r := Trim(s);
    TrimEdges(s);
    assert TrimStart(r) == r;
    assert TrimEnd(r) == r;
  }

  /** A string made only of whitespace trims to the empty string. */
  lemma {:induction false} TrimAllWhitespace(s: string)
    requires forall i :: 0 <= i < |s| ==> IsJsWhitespace(s[i])
    ensures Trim(s) == ""
  {
    assert |TrimStart(s)| == 0 by {
      if |TrimStart(s)| > 0 {
        assert TrimStart(s)[0] == s[|s| - |TrimStart(s)|];
      }
    }
  }

  /** `toLowerCase` on one character, for the ASCII letters A to Z. */
  function LowerChar(c: char): char {
    if 'A' <= c <= 'Z' then (c as int + 32) as char else c
  }

  /** `String.prototype.toLowerCase`, restricted to ASCII letters. */
  function Lower(s: string): (r: string)
    ensures |r| == |s|
    ensures forall i :: 0 <= i < |s| ==> !('A' <= r[i] <= 'Z')
    ensures forall i :: 0 <= i < |s| && !('A' <= s[i] <= 'Z') ==> r[i] == s[i]
    ensures forall i :: 0 <= i < |s| && 'A' <= s[i] <= 'Z' ==> r[i] as int == s[i] as int + 32
  {
    seq(|s|, i requires 0 <= i < |s| => LowerChar(s[i]))
  }

  /** Lower-casing twice is lower-casing once. */
  lemma LowerIdempotent(s: string)
    ensures Lower(Lower(s)) == Lower(s)
  {
  }

  /** Lower-casing does not touch whitespace, so it commutes with trimming
      of that whitespace. */
  lemma LowerKeepsWhitespace(s: string)
    ensures forall i :: 0 <= i < |s| ==> (IsJsWhitespace(Lower(s)[i]) <==> IsJsWhitespace(s[i]))
  {
  }

  /** `t` occurs in `s` starting at index `i`. */
  predicate OccursAt(s: string, t: string, i: int) {
    0 <= i && i + |t| <= |s| && s[i..i + |t|] == t
  }

  /** Occurrences past the first index of `s` are occurrences in its tail. */
  lemma OccursShift(s: string, t: string)
    ensures forall i :: 1 <= i ==> (OccursAt(s, t, i) <==> |s| > 0 && OccursAt(s[1..], t, i - 1))
  {
    forall i | 1 <= i
      ensures OccursAt(s, t, i) <==> |s| > 0 && OccursAt(s[1..], t, i - 1)
    {
      if i + |t| <= |s| {
        var a, b := s[i..i + |t|], s[1..][i - 1..i - 1 + |t|];
        forall k | 0 <= k < |t| ensures a[k] == b[k] {
          assert b[k] == s[1..][i - 1 + k] == s[i + k];
        }
        assert a == b;
      }
    }
  }

  /** `s.startsWith(t)`. */
  predicate StartsWith(s: string, t: string) {
    |t| <= |s| && s[..|t|] == t
  }

  /** `s.includes(t)`, scanning start positions from the left. */
  predicate Contains(s: string, t: string)
    decreases |s|
  {
    StartsWith(s, t) || (|s| > 0 && Contains(s[1..], t))
  }

  /** `Contains` holds exactly when `t` occurs at some index of `s`. */
  lemma {:induction false} ContainsIff(s: string, t: string)
    ensures Contains(s, t) <==> exists i :: OccursAt(s, t, i)
    decreases |s|
  {
    if StartsWith(s, t) {
      assert OccursAt(s, t, 0);
    } else if |s| > 0 {
      ContainsIff(s[1..], t);
      if Contains(s[1..], t) {
        var i :| OccursAt(s[1..], t, i);
        assert s[i + 1..i + 1 + |t|] == s[1..][i..i + |t|];
        assert OccursAt(s, t, i + 1);
      }
      if exists i :: OccursAt(s, t, i) {
        var i :| OccursAt(s, t, i);
        assert i != 0;
        assert s[1..][i - 1..i - 1 + |t|] == s[i..i + |t|];
        assert OccursAt(s[1..], t, i - 1);
      }
    }
  }

  /** Every string includes the empty string. */
  lemma ContainsEmpty(s: string)
    ensures Contains(s, "")
  {
    assert StartsWith(s, "");
  }

  /** A character that reads back unchanged from the `innerHTML` of a text
      node: serialisation escapes `&`, `<`, `>` and U+00A0. */
  predicate HtmlInert(c: char) {
    c != '&' && c != '<' && c != '>' && c != '\U{A0}'
  }

  /** The serialisation of one character of a text node. */
  function EscapeChar(c: char): string {
    if c == '&' then "&amp;"
    else if c == '<' then "&lt;"
    else if c == '>' then "&gt;"
    else if c == '\U{A0}' then "&nbsp;"
    else [c]
  }

  /** What `innerHTML` returns for an element holding the text `s`. */
  function EscapeHtml(s: string): string {
    if s == [] then [] else EscapeChar(s[0]) + EscapeHtml(s[1..])
  }

  /** Text without those four characters reads back unchanged. */
  lemma {:induction false} EscapeHtmlInert(s: string)
    requires forall i :: 0 <= i < |s| ==> HtmlInert(s[i])
    ensures EscapeHtml(s) == s
  {
    if s != [] {
      EscapeHtmlInert(s[1..]);
      assert [s[0]] + s[1..] == s;
    }
  }

  /** Escaping works character by character, so it distributes over
      concatenation. */
  lemma {:induction false} EscapeHtmlAppend(a: string, b: string)
    ensures EscapeHtml(a + b) == EscapeHtml(a) + EscapeHtml(b)
  {
    if a != [] {
      assert (a + b)[0] == a[0] && (a + b)[1..] == a[1..] + b;
      EscapeHtmlAppend(a[1..], b);
      var c := EscapeChar(a[0]);
      calc {
        EscapeHtml(a + b);
        c + EscapeHtml(a[1..] + b);
        c + (EscapeHtml(a[1..]) + EscapeHtml(b));
        (c + EscapeHtml(a[1..])) + EscapeHtml(b);
      }
    } else {
      assert a + b == b;
    }
  }

  /** Escaping a text whose first part needs none: that part is kept, the
      next character is escaped on its own, and the rest follows. */
  lemma EscapeAfterInert(p: string, c: char, q: string)
    requires forall i :: 0 <= i < |p| ==> HtmlInert(p[i])
    ensures EscapeHtml(p + [c] + q) == p + EscapeChar(c) + EscapeHtml(q)
  {
    EscapeHtmlAppend(p + [c], q);
    EscapeHtmlAppend(p, [c]);
    EscapeHtmlInert(p);
    assert [c][1..] == [];
  }

  /** The character for a decimal digit. */
  function Digit(d: nat): (c: char)
    requires d < 10
    ensures '0' <= c <= '9'
  {
    ('0' as int + d) as char
  }

  /** The value of a decimal digit character. */
  function DigitValue(c: char): nat
    requires '0' <= c <= '9'
  {
    c as int - '0' as int
  }

  predicate AllDigits(s: string) {
    forall i :: 0 <= i < |s| ==> '0' <= s[i] <= '9'
  }

  /** The value of a string of decimal digits. */
  function DecimalValue(s: string): nat
    requires AllDigits(s)
  {
    if s == [] then 0 else DecimalValue(s[..|s| - 1]) * 10 + DigitValue(s[|s| - 1])
  }

  /** The decimal rendering of `n`, as `${n}` prints a non-negative integer:
      digits only, and no leading zero unless `n` is zero. */
  function NatToString(n: nat): (r: string)
    ensures |r| >= 1 && AllDigits(r)
    ensures r[0] == '0' <==> n == 0
    ensures n < 10 <==> |r| == 1
  {
    if n < 10 then [Digit(n)] else NatToString(n / 10) + [Digit(n % 10)]
  }

  /** Reading the digits of `NatToString(n)` gives back `n`. */
  lemma {:induction false} NatToStringRoundTrip(n: nat)
    ensures DecimalValue(NatToString(n)) == n
  {
    var r := NatToString(n);
    if n >= 10 {
      NatToStringRoundTrip(n / 10);
      assert r[..|r| - 1] == NatToString(n / 10);
    }
  }
}
