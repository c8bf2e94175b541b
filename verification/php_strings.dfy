/**
 * The PHP string built-ins the SQL builders of the configuration object rely on:
 * `trim`, `implode`, `str_replace`, `strtoupper`, integer-to-string conversion,
 * the truthiness of a string in a condition, and the word-character class of the
 * regular expression in the magic `getIdBy…` dispatcher.
 */
module PhpStrings {

  /** A string in a PHP condition is false exactly when it is "" or "0". */
  predicate Truthy(s: string) {
    s != "" && s != "0"
  }

  // ---------------------------------------------------------------------------
  // trim

  /** The characters PHP's `trim` strips by default: " \t\n\r\0\x0B". */
  predicate IsTrimChar(c: char) {
    c == ' ' || c == '\t' || c == '\n' || c == '\r' || c == 0 as char || c == 11 as char
  }

  function TrimLeft(s: string): string
    decreases |s|
  {
    if |s| > 0 && IsTrimChar(s[0]) then TrimLeft(s[1..]) else s
  }

  function TrimRight(s: string): string
    decreases |s|
  {
    if |s| > 0 && IsTrimChar(s[|s| - 1]) then TrimRight(s[..|s| - 1]) else s
  }

  /** PHP's `trim`: strips the trim characters from both ends. */
  function Trim(s: string): string {
    TrimRight(TrimLeft(s))
  }

  /** `TrimLeft` cuts a run of trim characters from the front and stops at the first other character. */
  lemma {:induction false} TrimLeftSpec(s: string)
    ensures var r := TrimLeft(s);
            && |r| <= |s| && r == s[|s| - |r|..]
            && (forall i :: 0 <= i < |s| - |r| ==> IsTrimChar(s[i]))
            && (|r| > 0 ==> !IsTrimChar(r[0]))
    decreases |s|
  {
    if |s| > 0 && IsTrimChar(s[0]) {
      TrimLeftSpec(s[1..]);
      var r := TrimLeft(s);
      assert r == TrimLeft(s[1..]);
      forall i | 0 < i < |s| - |r| ensures IsTrimChar(s[i]) {
        assert s[i] == s[1..][i - 1];
      }
    }
  }

  /** `TrimRight` cuts a run of trim characters from the back and stops at the last other character. */
  lemma {:induction false} TrimRightSpec(s: string)
    ensures var r := TrimRight(s);
            && |r| <= |s| && r == s[..|r|]
            && (forall i :: |r| <= i < |s| ==> IsTrimChar(s[i]))
            && (|r| > 0 ==> !IsTrimChar(r[|r| - 1]))
    decreases |s|
  {
    if |s| > 0 && IsTrimChar(s[|s| - 1]) {
      TrimRightSpec(s[..|s| - 1]);
      var r := TrimRight(s);
      assert r == TrimRight(s[..|s| - 1]);
      forall i | |r| <= i < |s| - 1 ensures IsTrimChar(s[i]) {
        assert s[i] == s[..|s| - 1][i];
      }
    }
  }

  /** `r` is `s` with a run of trim characters cut from each end, starting at offset `a`. */
  predicate TrimmedAt(s: string, a: int, r: string) {
    && 0 <= a <= a + |r| <= |s| && r == s[a..a + |r|]
    && (forall i :: 0 <= i < a ==> IsTrimChar(s[i]))
    && (forall i :: a + |r| <= i < |s| ==> IsTrimChar(s[i]))
  }

  /**
   * The result of `trim` is a slice of the input, everything cut away on either
   * side is a trim character, and neither end of the result is one.
   */
  lemma TrimSpec(s: string)
    ensures exists a :: TrimmedAt(s, a, Trim(s))
    ensures var r := Trim(s); |r| > 0 ==> !IsTrimChar(r[0]) && !IsTrimChar(r[|r| - 1])
  {
    var l := TrimLeft(s);
    TrimLeftSpec(s);
    TrimRightSpec(l);
    var r := TrimRight(l);
    assert r == Trim(s);
    assert TrimmedAt(s, |s| - |l|, r);
    if |r| > 0 {
      assert r[0] == l[0];
    }
  }

  /** Trimming twice is trimming once. */
  lemma TrimIdempotent(s: string)
    ensures Trim(Trim(s)) == Trim(s)
  {
    var t := Trim(s);
    TrimSpec(s);
    if |t| > 0 {
      assert TrimLeft(t) == t;
      assert TrimRight(t) == t;
    }
  }

  // ---------------------------------------------------------------------------
  // implode and repetition

  /** PHP's `implode(sep, xs)`. */
  function Join(sep: string, xs: seq<string>): string
    decreases |xs|
  {
    if |xs| == 0 then ""
    else if |xs| == 1 then xs[0]
    else Join(sep, xs[..|xs| - 1]) + sep + xs[|xs| - 1]
  }

  /**
   * The accumulation idiom "append the separator unless the string is still empty,
   * then append the piece" builds the implode of non-empty pieces.
   */
  lemma JoinExtend(sep: string, xs: seq<string>, x: string)
    requires forall i :: 0 <= i < |xs| ==> xs[i] != ""
    ensures (if Join(sep, xs) != "" then Join(sep, xs) + sep else Join(sep, xs)) + x == Join(sep, xs + [x])
  {
    if |xs| > 0 {
      assert |Join(sep, xs)| >= |xs[|xs| - 1]| > 0;
      JoinSnoc(sep, xs, x);
    } else {
      assert xs + [x] == [x];
    }
  }

  /** `n` copies of `s`. */
  function Repeat(s: string, n: nat): (r: seq<string>)
    ensures |r| == n && forall i :: 0 <= i < n ==> r[i] == s
  {
    seq(n, _ => s)
  }

  /** Appending one more element to a non-empty join adds the separator and the element. */
  lemma JoinSnoc(sep: string, xs: seq<string>, x: string)
    requires |xs| > 0
    ensures Join(sep, xs + [x]) == Join(sep, xs) + sep + x
  {
    assert (xs + [x])[..|xs|] == xs;
  }

  /** A join whose last element is non-empty is non-empty, and it is only "0" when it is the single element "0". */
  lemma JoinTruthy(sep: string, xs: seq<string>)
    requires |xs| > 0 && |sep| > 0
    requires forall i :: 0 <= i < |xs| ==> Truthy(xs[i])
    ensures Truthy(Join(sep, xs))
  {
    if |xs| > 1 {
      assert |Join(sep, xs)| >= |sep| + |xs[|xs| - 1]| >= 2;
    }
  }

  // ---------------------------------------------------------------------------
  // str_replace

  /**
   * PHP's `str_replace(pat, rep, s)`: scan left to right and replace each
   * non-overlapping occurrence of `pat`.
   */
  function ReplaceAll(s: string, pat: string, rep: string): string
    requires |pat| > 0
    decreases |s|
  {
    if |s| == 0 then ""
    else if |pat| <= |s| && s[..|pat|] == pat then rep + ReplaceAll(s[|pat|..], pat, rep)
    else [s[0]] + ReplaceAll(s[1..], pat, rep)
  }

  /** `pat` occurs in `s` at position `i`. */
  predicate OccursAt(s: string, pat: string, i: int) {
    0 <= i && i + |pat| <= |s| && s[i..i + |pat|] == pat
  }

  /** `pat` occurs in `s` at some position. */
  predicate Occurs(s: string, pat: string) {
    exists i :: 0 <= i <= |s| && OccursAt(s, pat, i)
  }

  /** A string without the pattern comes out of `str_replace` unchanged. */
  lemma {:induction false} ReplaceAbsent(s: string, pat: string, rep: string)
    requires |pat| > 0 && !Occurs(s, pat)
    ensures ReplaceAll(s, pat, rep) == s
    decreases |s|
  {
    if |s| > 0 {
      assert !(|pat| <= |s| && s[..|pat|] == pat) by {
        if |pat| <= |s| && s[..|pat|] == pat {
          assert OccursAt(s, pat, 0);
        }
      }
      assert !Occurs(s[1..], pat) by {
        if i :| OccursAt(s[1..], pat, i) {
          assert s[i + 1..i + 1 + |pat|] == s[1..][i..i + |pat|];
          assert OccursAt(s, pat, i + 1);
        }
      }
      ReplaceAbsent(s[1..], pat, rep);
    }
  }

  /** `str_replace` with a one-character pattern on a one-character string. */
  lemma ReplaceSingle(c: char, pat: string, rep: string)
    requires |pat| == 1
    ensures ReplaceAll([c], pat, rep) == if [c] == pat then rep else [c]
  {
    assert [c][1..] == [];
    assert [c][..1] == [c];
  }

  /** For a one-character pattern, `str_replace` distributes over concatenation. */
  lemma {:induction false} ReplaceCharConcat(a: string, b: string, c: char, rep: string)
    ensures ReplaceAll(a + b, [c], rep) == ReplaceAll(a, [c], rep) + ReplaceAll(b, [c], rep)
    decreases |a|
  {
    if |a| > 0 {
      assert (a + b)[1..] == a[1..] + b;
      assert (a + b)[..1] == a[..1];
      ReplaceCharConcat(a[1..], b, c, rep);
    } else {
      assert a + b == b;
    }
  }

  /** What `str_replace("<br/>", "\n", ·)` does to the HTML line breaks in an update value. */
  function ReplaceBreaks(s: string): string {
    ReplaceAll(s, "<br/>", "\n")
  }

  /** One step of the line-break replacement, at the head of a non-empty string. */
  lemma ReplaceBreaksHead(s: string)
    requires |s| > 0
    ensures 5 <= |s| && s[..5] == "<br/>" ==> ReplaceBreaks(s) == "\n" + ReplaceBreaks(s[5..])
    ensures !(5 <= |s| && s[..5] == "<br/>") ==> ReplaceBreaks(s) == [s[0]] + ReplaceBreaks(s[1..])
  {
  }

  /** If the output of the line-break replacement starts with a break-free, newline-free text, so did the input. */
  lemma {:induction false} ReplaceBreaksKeepsPrefix(s: string, p: string)
    requires forall k :: 0 <= k < |p| ==> p[k] != '\n'
    requires |p| <= |ReplaceBreaks(s)| && ReplaceBreaks(s)[..|p|] == p
    ensures |p| <= |s| && s[..|p|] == p
    decreases |p|
  {
    if |p| > 0 {
      var r := ReplaceBreaks(s);
      assert |s| > 0;
      ReplaceBreaksHead(s);
      assert r[0] == p[0];
      assert !(5 <= |s| && s[..5] == "<br/>");
      assert r == [s[0]] + ReplaceBreaks(s[1..]);
      assert ReplaceBreaks(s[1..])[..|p| - 1] == p[1..];
      ReplaceBreaksKeepsPrefix(s[1..], p[1..]);
      assert s[..|p|] == [s[0]] + s[1..][..|p| - 1];
    }
  }

  /** After the replacement no "<br/>" is left, not even one assembled from the pieces around a replacement. */
  lemma {:induction false} NoBreakRemains(s: string)
    ensures !Occurs(ReplaceBreaks(s), "<br/>")
    decreases |s|
  {
    if |s| > 0 {
      var r := ReplaceBreaks(s);
      ReplaceBreaksHead(s);
      if 5 <= |s| && s[..5] == "<br/>" {
        NoBreakRemains(s[5..]);
        var t := ReplaceBreaks(s[5..]);
        forall i | 0 <= i <= |r|
          ensures !OccursAt(r, "<br/>", i)
        {
          if i == 0 {
            assert r[0] == '\n';
          } else if i + 5 <= |r| {
            assert r[i..i + 5] == t[i - 1..i - 1 + 5];
            assert !OccursAt(t, "<br/>", i - 1);
          }
        }
      } else {
        NoBreakRemains(s[1..]);
        var t := ReplaceBreaks(s[1..]);
        forall i | 0 <= i <= |r|
          ensures !OccursAt(r, "<br/>", i)
        {
          if i == 0 {
            if 5 <= |r| {
              assert r[0..5] == [s[0]] + t[..4];
              assert r[0..5][0] == s[0] && r[0..5][1..] == t[..4];
              assert "<br/>"[0] == '<' && "<br/>"[1..] == "br/>";
              if 4 <= |t| && t[..4] == "br/>" {
                ReplaceBreaksKeepsPrefix(s[1..], "br/>");
                assert s[..5] == [s[0]] + s[1..][..4];
              }
            }
          } else if i + 5 <= |r| {
            assert r[i..i + 5] == t[i - 1..i - 1 + 5];
            assert !OccursAt(t, "<br/>", i - 1);
          }
        }
      }
    }
  }

  // ---------------------------------------------------------------------------
  // strtoupper

  /**
   * `strtoupper` on one character, locale-independent as in PHP 8.2; on the
   * letters of "asc" and "desc" every locale agrees with it.
   */
  function UpperChar(c: char): char {
    if 'a' <= c <= 'z' then (c as int - 'a' as int + 'A' as int) as char else c
  }

  function Upper(s: string): (r: string)
    ensures |r| == |s| && forall i :: 0 <= i < |s| ==> r[i] == UpperChar(s[i])
  {
    seq(|s|, i requires 0 <= i < |s| => UpperChar(s[i]))
  }

  /** The lower-case form of an ASCII capital; other characters are left alone. */
  function LowerChar(c: char): char {
    if 'A' <= c <= 'Z' then (c as int - 'A' as int + 'a' as int) as char else c
  }

  /** `s` spells the word `w` letter by letter, each letter in either case. */
  predicate SpelledInAnyCase(s: string, w: string) {
    |s| == |w| && forall i :: 0 <= i < |s| ==> s[i] == w[i] || s[i] == LowerChar(w[i])
  }

  /** `strtoupper(s) == w` for an upper-case word `w` exactly when `s` spells `w` in any mix of cases. */
  lemma UpperEqualsWord(s: string, w: string)
    requires forall i :: 0 <= i < |w| ==> 'A' <= w[i] <= 'Z'
    ensures Upper(s) == w <==> SpelledInAnyCase(s, w)
  {
    if SpelledInAnyCase(s, w) {
      assert forall i :: 0 <= i < |s| ==> Upper(s)[i] == w[i];
    }
  }

  // ---------------------------------------------------------------------------
  // integers as decimal strings

  predicate IsDigit(c: char) {
    '0' <= c <= '9'
  }

  function DigitChar(d: int): (c: char)
    requires 0 <= d < 10
    ensures IsDigit(c)
  {
    ('0' as int + d) as char
  }

  /** PHP's string conversion of a non-negative integer: decimal digits, no leading zero. */
  function NatToString(n: nat): (r: string)
    ensures |r| > 0 && forall i :: 0 <= i < |r| ==> IsDigit(r[i])
    ensures |r| > 1 ==> r[0] != '0'
    decreases n
  {
    if n < 10 then [DigitChar(n)] else NatToString(n / 10) + [DigitChar(n % 10)]
  }

  /** Reads a string of decimal digits back as a number. */
  function ParseNat(s: string): nat
    requires forall i :: 0 <= i < |s| ==> IsDigit(s[i])
    decreases |s|
  {
    if |s| == 0 then 0
    else
      assert IsDigit(s[|s| - 1]);
      ParseNat(s[..|s| - 1]) * 10 + (s[|s| - 1] as int - '0' as int)
  }

  /** Decimal rendering round-trips through parsing. */
  lemma {:induction false} ParseNatToString(n: nat)
    ensures ParseNat(NatToString(n)) == n
    decreases n
  {
    var s := NatToString(n);
    if n >= 10 {
      ParseNatToString(n / 10);
      assert s[..|s| - 1] == NatToString(n / 10);
    }
  }

  /** Different numbers render as different strings. */
  lemma NatToStringInjective(a: nat, b: nat)
    requires NatToString(a) == NatToString(b)
    ensures a == b
  {
    ParseNatToString(a);
    ParseNatToString(b);
  }

  // ---------------------------------------------------------------------------
  // the word class [a-zA-Z0-9_]

  predicate IsWordChar(c: char) {
    'a' <= c <= 'z' || 'A' <= c <= 'Z' || '0' <= c <= '9' || c == '_'
  }

  /** The longest prefix of `s` made of word characters: what a greedy `[a-zA-Z0-9_]+` captures. */
  function WordPrefix(s: string): (r: string)
    ensures |r| <= |s| && r == s[..|r|]
    ensures forall i :: 0 <= i < |r| ==> IsWordChar(r[i])
    ensures |r| < |s| ==> !IsWordChar(s[|r|])
    decreases |s|
  {
    if |s| > 0 && IsWordChar(s[0]) then [s[0]] + WordPrefix(s[1..]) else ""
  }
}
