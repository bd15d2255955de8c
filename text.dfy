/**
 * The operations of Rust's `str` and `String` that the bot relies on, over `seq<char>`:
 * `starts_with`, `trim_start_matches`, `contains`, newline joining and the decimal
 * rendering of an integer by `format!`.
 */
module Text {

  /** `s.starts_with(p)` */
  predicate StartsWith(s: string, p: string)
  {
    |p| <= |s| && s[..|p|] == p
  }

  /** `s` starts with `p` exactly when it is `p` followed by something. */
  lemma StartsWithConcat(s: string, p: string)
    ensures StartsWith(s, p) <==> exists u :: s == p + u
  {
    if StartsWith(s, p) {
      assert s == p + s[|p|..];
    }
  }

  /** `s.trim_start_matches(p)`: removes `p` from the front of `s` for as long as `s`
      starts with it. An empty pattern leaves `s` as it is. */
  function TrimStartMatches(s: string, p: string): (r: string)
    ensures r == s || (|r| < |s| && r == s[|s| - |r|..])
    ensures p != [] ==> !StartsWith(r, p)
    ensures p == [] || !StartsWith(s, p) ==> r == s
    decreases |s|
  {
    if p != [] && StartsWith(s, p) then TrimStartMatches(s[|p|..], p) else s
  }

  /** `k` copies of `p`, one after the other. */
  function Repeat(p: string, k: nat): string
  {
    if k == 0 then [] else p + Repeat(p, k - 1)
  }

  /** One leading copy of the pattern is stripped and trimming goes on with the rest. */
  lemma TrimPrefixed(p: string, u: string)
    requires p != []
    ensures TrimStartMatches(p + u, p) == TrimStartMatches(u, p)
  {
    var s := p + u;
    assert s[..|p|] == p;
    assert s[|p|..] == u;
  }

  /** Every leading copy of the pattern is stripped, however many there are: together with
      the contract of TrimStartMatches this determines its result completely. */
  lemma {:induction false} TrimRepeated(p: string, k: nat, t: string)
    requires p != []
    ensures TrimStartMatches(Repeat(p, k) + t, p) == TrimStartMatches(t, p)
  {
    RepeatPrefix(p, k, t);
    if k > 0 {
      calc {
        TrimStartMatches(Repeat(p, k) + t, p);
        == { TrimPrefixed(p, Repeat(p, k - 1) + t); }
        TrimStartMatches(Repeat(p, k - 1) + t, p);
        == { TrimRepeated(p, k - 1, t); }
        TrimStartMatches(t, p);
      }
    }
  }

  /** `k` copies of `p` before `t` are `t` itself when there are none, and otherwise one
      copy before the remaining `k - 1`. */
  lemma RepeatPrefix(p: string, k: nat, t: string)
    ensures k == 0 ==> Repeat(p, k) + t == t
    ensures k > 0 ==> Repeat(p, k) + t == p + (Repeat(p, k - 1) + t)
  {
    if k == 0 {
      assert Repeat(p, k) == [];
    }
  }

  /** `sub` occurs in `s` at index `i`. */
  ghost predicate OccursAt(s: string, sub: string, i: int)
  {
    0 <= i && i + |sub| <= |s| && s[i..i + |sub|] == sub
  }

  lemma OccursAtTail(s: string, sub: string, i: int)
    requires s != [] && 0 <= i
    ensures OccursAt(s[1..], sub, i) <==> OccursAt(s, sub, i + 1)
  {
    if 0 <= i && i + |sub| <= |s| - 1 {
      assert s[1..][i..i + |sub|] == s[i + 1..i + 1 + |sub|];
    }
  }

  /** `s.contains(sub)`: a case-sensitive substring test; the empty string occurs everywhere. */
  function Contains(s: string, sub: string): (b: bool)
    ensures b <==> exists i :: OccursAt(s, sub, i)
    decreases |s|
  {
    if StartsWith(s, sub) then
      assert OccursAt(s, sub, 0);
      true
    else if s == [] then
      false
    else
      var b := Contains(s[1..], sub);
      assert b ==> exists i :: OccursAt(s, sub, i) by {
        if b {
          var i :| OccursAt(s[1..], sub, i);
          OccursAtTail(s, sub, i);
        }
      }
      assert (exists i :: OccursAt(s, sub, i)) ==> b by {
        if exists i :: OccursAt(s, sub, i) {
          var i :| OccursAt(s, sub, i);
          assert i != 0;
          OccursAtTail(s, sub, i - 1);
        }
      }
      b
  }

  /** `lines.join("\n")`: the lines separated by newlines, with no newline after the last. */
  function JoinLines(lines: seq<string>): string
  {
    if |lines| == 0 then ""
    else if |lines| == 1 then lines[0]
    else JoinLines(lines[..|lines| - 1]) + "\n" + lines[|lines| - 1]
  }

  /** What a loop that pushes every line and then a newline onto a `String` builds. */
  function Terminated(lines: seq<string>): string
  {
    if lines == [] then "" else Terminated(lines[..|lines| - 1]) + lines[|lines| - 1] + "\n"
  }

  /** Dropping the final newline of the terminated form gives the joined form. */
  lemma {:induction false} TerminatedIsJoinedPlusNewline(lines: seq<string>)
    requires lines != []
    ensures Terminated(lines) == JoinLines(lines) + "\n"
  {
    if |lines| > 1 {
      var init := lines[..|lines| - 1];
      TerminatedIsJoinedPlusNewline(init);
    }
  }

  /** Joined lines start with the first line. */
  lemma {:induction false} JoinLinesStartsWithFirst(lines: seq<string>)
    requires lines != []
    ensures StartsWith(JoinLines(lines), lines[0])
  {
    if |lines| > 1 {
      var init := lines[..|lines| - 1];
      JoinLinesStartsWithFirst(init);
      assert init[0] == lines[0];
    }
  }

  /** Equal strings that start with the same prefix agree after it. */
  lemma PrefixCancel(p: string, x: string, y: string)
    requires p + x == p + y
    ensures x == y
  {
    assert x == (p + x)[|p|..];
    assert y == (p + y)[|p|..];
  }

  /** Equal strings that end with the same suffix agree before it. */
  lemma SuffixCancel(x: string, y: string, q: string)
    requires x + q == y + q
    ensures x == y
  {
    assert x == (x + q)[..|x|];
    assert y == (y + q)[..|y|];
  }

  /** The index of the first `c` in `u`, or its length when it has none. */
  function FirstIndexOf(u: string, c: char): nat
  {
    if u == [] || u[0] == c then 0 else 1 + FirstIndexOf(u[1..], c)
  }

  lemma {:induction false} FirstIndexAfterHead(a: string, c: char, x: string)
    requires c !in a
    ensures FirstIndexOf(a + [c] + x, c) == |a|
  {
    if a != [] {
      assert (a + [c] + x)[1..] == a[1..] + [c] + x;
      FirstIndexAfterHead(a[1..], c, x);
    }
  }

  /** A head free of `c` followed by `c` is determined by the string it starts. */
  lemma SplitAtFirst(a: string, c: char, x: string, b: string, y: string)
    requires c !in a && c !in b
    requires a + [c] + x == b + [c] + y
    ensures a == b && x == y
  {
    var u := a + [c] + x;
    FirstIndexAfterHead(a, c, x);
    FirstIndexAfterHead(b, c, y);
    assert a == u[..|a|] == b;
    assert x == u[|a| + 1..] == y;
  }

  predicate IsDigit(c: char)
  {
    '0' <= c <= '9'
  }

  function DigitChar(d: nat): (c: char)
    requires d < 10
    ensures IsDigit(c) && c as int - '0' as int == d
  {
    (d + '0' as int) as char
  }

  /** The decimal digits of `n`, most significant first, without leading zeros. */
  function NatDigits(n: nat): (r: string)
    ensures r != [] && forall i :: 0 <= i < |r| ==> IsDigit(r[i])
    ensures r[0] == '0' <==> n == 0
  {
    if n < 10 then [DigitChar(n)] else NatDigits(n / 10) + [DigitChar(n % 10)]
  }

  /** `format!("{}", n)` for an integer: a minus sign for a negative value, then the digits. */
  function Decimal(n: int): (r: string)
    ensures r != [] && ' ' !in r
    ensures (r[0] == '-') <==> n < 0
    ensures var digits := if n < 0 then r[1..] else r;
            && digits != []
            && (forall i :: 0 <= i < |digits| ==> IsDigit(digits[i]))
            && (digits[0] == '0' <==> n == 0)
  {
    if n < 0 then "-" + NatDigits(-n) else NatDigits(n)
  }

  /** The value of a string of decimal digits. */
  function DigitsValue(s: string): int
  {
    if s == [] then 0 else DigitsValue(s[..|s| - 1]) * 10 + (s[|s| - 1] as int - '0' as int)
  }

  /** The value of a decimal numeral with an optional leading minus sign. */
  function DecimalValue(s: string): int
  {
    if s != [] && s[0] == '-' then -DigitsValue(s[1..]) else DigitsValue(s)
  }

  lemma {:induction false} NatDigitsValue(n: nat)
    ensures DigitsValue(NatDigits(n)) == n
  {
    if n >= 10 {
      var s := NatDigits(n / 10) + [DigitChar(n % 10)];
      assert s[..|s| - 1] == NatDigits(n / 10);
      NatDigitsValue(n / 10);
    }
  }

  /** Reading back the decimal rendering of an integer gives the integer. */
  lemma DecimalRoundTrip(n: int)
    ensures DecimalValue(Decimal(n)) == n
  {
    if n < 0 {
      assert ("-" + NatDigits(-n))[1..] == NatDigits(-n);
      NatDigitsValue(-n);
    } else {
      NatDigitsValue(n);
    }
  }

  /** Two integers with the same decimal rendering are equal. */
  lemma DecimalInjective(m: int, n: int)
    requires Decimal(m) == Decimal(n)
    ensures m == n
  {
    DecimalRoundTrip(m);
    DecimalRoundTrip(n);
  }
}
