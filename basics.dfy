/** Small pieces of Python semantics shared by the rest of the model:
    Option, integer truncation, str.isspace, ASCII lower-casing, str(n),
    str.strip(chars), str.replace, `re.sub` over literal alternatives and
    sums of real sequences. */
module Basics {

  datatype Option<T> = None | Some(value: T)

  /** The Python exceptions the modelled code can raise on its own. */
  datatype PyError = ValueError | ZeroDivisionError | IndexError | KeyError

  /** A value, or the exception that aborted the computation. */
  datatype Result<T> = Ok(value: T) | Err(error: PyError)

  /** Python's `int(a / b)` on two integers: the exact quotient truncated
      toward zero (Dafny's own `/` is Euclidean). */
  function TruncDiv(a: int, b: int): (q: int)
    requires b != 0
    ensures a >= 0 && b > 0 ==> q == a / b
    ensures (if q < 0 then -q else q) == (if a < 0 then -a else a) / (if b < 0 then -b else b)
    ensures (a >= 0) == (b > 0) || a == 0 ==> q >= 0
    ensures (a >= 0) != (b > 0) ==> q <= 0
  {
    var n := if a < 0 then -a else a;
    var d := if b < 0 then -b else b;
    if (a < 0) != (b < 0) then -(n / d) else n / d
  }

  /** `str.isspace()` on one character; the regular-expression class `\s`
      of a `str` pattern matches exactly these characters too. */
  predicate IsSpace(c: char) {
    var n := c as int;
    (9 <= n <= 13) || (28 <= n <= 32) || n == 0x85 || n == 0xA0 || n == 0x1680
    || (0x2000 <= n <= 0x200A) || n == 0x2028 || n == 0x2029 || n == 0x202F
    || n == 0x205F || n == 0x3000
  }

  function LowerChar(c: char): char {
    if 'A' <= c <= 'Z' then (c as int + 32) as char else c
  }

  /** `str.lower()`, restricted to the ASCII letters. */
  function Lower(s: string): (r: string)
    ensures |r| == |s|
    ensures forall i | 0 <= i < |s| :: r[i] == LowerChar(s[i])
  {
    seq(|s|, i requires 0 <= i < |s| => LowerChar(s[i]))
  }

  lemma LowerAppend(a: string, b: string)
    ensures Lower(a + b) == Lower(a) + Lower(b)
  {
    assert forall i | 0 <= i < |a + b| :: Lower(a + b)[i] == (Lower(a) + Lower(b))[i];
  }

  function DigitChar(d: nat): char
    requires d < 10
  {
    "0123456789"[d]
  }

  /** `str(n)` for a natural number: its decimal digits, most significant first. */
  function NatToString(n: nat): (r: string)
    ensures 1 <= |r|
    ensures n >= 10 <==> |r| >= 2
    ensures forall i | 0 <= i < |r| :: '0' <= r[i] <= '9'
  {
    if n < 10 then [DigitChar(n)] else NatToString(n / 10) + [DigitChar(n % 10)]
  }

  lemma DigitCharInjective(d: nat, e: nat)
    requires d < 10 && e < 10 && DigitChar(d) == DigitChar(e)
    ensures d == e
  {
  }

  /** Different numbers print differently. */
  lemma {:induction false} NatToStringInjective(a: nat, b: nat)
    requires NatToString(a) == NatToString(b)
    ensures a == b
  {
    if a < 10 && b < 10 {
      DigitCharInjective(a, b);
    } else if a >= 10 && b >= 10 {
      var sa, sb := NatToString(a), NatToString(b);
      assert sa[..|sa| - 1] == NatToString(a / 10);
      assert sb[..|sb| - 1] == NatToString(b / 10);
      NatToStringInjective(a / 10, b / 10);
      DigitCharInjective(a % 10, b % 10);
      assert a == 10 * (a / 10) + a % 10;
      assert b == 10 * (b / 10) + b % 10;
    }
  }

  /** Python's `s.lstrip(chars)`: drop the leading characters that `drop` holds of. */
  function StripLeft(s: string, drop: char -> bool): (r: string)
    ensures |r| <= |s|
  {
    if s != [] && drop(s[0]) then StripLeft(s[1..], drop) else s
  }

  function StripRight(s: string, drop: char -> bool): (r: string)
    ensures |r| <= |s|
  {
    if s != [] && drop(s[|s| - 1]) then StripRight(s[..|s| - 1], drop) else s
  }

  /** `s.strip(chars)`; `s.strip()` is `Strip(s, IsSpace)`. */
  function Strip(s: string, drop: char -> bool): string {
    StripRight(StripLeft(s, drop), drop)
  }

  lemma {:induction false} StripLeftSpec(s: string, drop: char -> bool)
    ensures var r := StripLeft(s, drop);
      && r == s[|s| - |r|..]
      && (r != [] ==> !drop(r[0]))
      && forall i | 0 <= i < |s| - |r| :: drop(s[i])
  {
    if s != [] && drop(s[0]) {
      StripLeftSpec(s[1..], drop);
      assert s[1..][|s| - 1 - |StripLeft(s, drop)|..] == s[|s| - |StripLeft(s, drop)|..];
    }
  }

  lemma {:induction false} StripRightSpec(s: string, drop: char -> bool)
    ensures var r := StripRight(s, drop);
      && r == s[..|r|]
      && (r != [] ==> !drop(r[|r| - 1]))
      && forall i | |r| <= i < |s| :: drop(s[i])
  {
    if s != [] && drop(s[|s| - 1]) {
      StripRightSpec(s[..|s| - 1], drop);
      assert s[..|s| - 1][..|StripRight(s, drop)|] == s[..|StripRight(s, drop)|];
    }
  }

  /** `s.strip(chars)` is the piece `s[i..j]` of `s` that neither starts nor
      ends with a dropped character, all of whose surroundings are dropped. */
  lemma StripSpec(s: string, drop: char -> bool)
    ensures exists i, j | 0 <= i <= j <= |s| ::
      && Strip(s, drop) == s[i..j]
      && (forall k | 0 <= k < i :: drop(s[k]))
      && (forall k | j <= k < |s| :: drop(s[k]))
    ensures var r := Strip(s, drop);
      r != [] ==> !drop(r[0]) && !drop(r[|r| - 1])
    ensures var r := Strip(s, drop);
      r == [] ==> forall k | 0 <= k < |s| :: drop(s[k])
  {
    var l := StripLeft(s, drop);
    StripLeftSpec(s, drop);
    StripRightSpec(l, drop);
    var r := Strip(s, drop);
    var i, j := |s| - |l|, |s| - |l| + |r|;
    StripAround(s, l, r, drop, i, j);
    assert Strip(s, drop) == s[i..j];
    if r == [] {
      assert l == [];
    }
  }

  /** The slice the two halves of the strip leave, and the dropped characters around it. */
  lemma StripAround(s: string, l: string, r: string, drop: char -> bool, i: nat, j: nat)
    requires |r| <= |l| <= |s| && l == s[|s| - |l|..] && r == l[..|r|] && i == |s| - |l| && j == i + |r|
    requires forall k | 0 <= k < |s| - |l| :: drop(s[k])
    requires forall k | |r| <= k < |l| :: drop(l[k])
    ensures i <= j <= |s| && r == s[i..j]
    ensures forall k | j <= k < |s| :: drop(s[k])
  {
    assert r == s[i..][..|r|];
    forall k | j <= k < |s|
      ensures drop(s[k])
    {
      assert s[k] == l[k - i];
    }
  }

  /** The first of `pats` that `s` starts with: the branch of a
      regular-expression alternation `p0|p1|...` that matches at the start. */
  function FirstPrefix(s: string, pats: seq<string>): (r: Option<nat>)
    ensures r.Some? ==> r.value < |pats| && pats[r.value] <= s
    ensures r.Some? ==> forall i | 0 <= i < r.value :: !(pats[i] <= s)
    ensures r.None? ==> forall i | 0 <= i < |pats| :: !(pats[i] <= s)
  {
    if pats == [] then None
    else if pats[0] <= s then Some(0)
    else match FirstPrefix(s, pats[1..])
      case Some(i) => Some(i + 1)
      case None => None
  }

  predicate NonEmpty(pats: seq<string>) {
    forall i | 0 <= i < |pats| :: pats[i] != []
  }

  /** `re.sub("p0|p1|...", sub, s)` for literal, non-empty alternatives:
      scanning left to right, a match of the first alternative that fits is
      replaced and scanning resumes after it; elsewhere a character is kept. */
  function SubAlternatives(s: string, pats: seq<string>, sub: string): string
    requires NonEmpty(pats)
    decreases |s|
  {
    if s == [] then []
    else match FirstPrefix(s, pats)
      case Some(i) => sub + SubAlternatives(s[|pats[i]|..], pats, sub)
      case None => [s[0]] + SubAlternatives(s[1..], pats, sub)
  }

  /** `"".join(sub + c for c in s) + sub`: what `s.replace("", sub)` gives. */
  function Interleave(s: string, sub: string): string {
    if s == [] then sub else sub + [s[0]] + Interleave(s[1..], sub)
  }

  /** Python's `s.replace(pat, sub)`: every non-overlapping occurrence of
      `pat`, found left to right, is replaced by `sub`; an empty `pat` matches
      at every position. */
  function Replace(s: string, pat: string, sub: string): string {
    if pat == [] then Interleave(s, sub) else SubAlternatives(s, [pat], sub)
  }

  /** Text in which no character starts an alternative is left alone. */
  lemma {:induction false} SubUnstarted(s: string, pats: seq<string>, sub: string)
    requires NonEmpty(pats)
    requires forall k, i | 0 <= k < |s| && 0 <= i < |pats| :: s[k] != pats[i][0]
    ensures SubAlternatives(s, pats, sub) == s
  {
    if s != [] {
      forall i | 0 <= i < |pats|
        ensures !(pats[i] <= s)
      {
        assert s[0] != pats[i][0];
      }
      SubUnstarted(s[1..], pats, sub);
    }
  }

  /** A last character that ends no alternative survives the substitution:
      no match can reach the end of the text. */
  lemma {:induction false} SubAlternativesLast(s: string, pats: seq<string>, sub: string)
    requires NonEmpty(pats)
    requires s != []
    requires forall i | 0 <= i < |pats| :: pats[i][|pats[i]| - 1] != s[|s| - 1]
    ensures var r := SubAlternatives(s, pats, sub);
      r != [] && r[|r| - 1] == s[|s| - 1]
    decreases |s|
  {
    match FirstPrefix(s, pats)
    case Some(i) =>
      var n := |pats[i]|;
      var rest := s[n..];
      assert rest[|rest| - 1] == s[|s| - 1];
      SubAlternativesLast(rest, pats, sub);
      assert SubAlternatives(s, pats, sub) == sub + SubAlternatives(rest, pats, sub);
    case None =>
      assert SubAlternatives(s, pats, sub) == [s[0]] + SubAlternatives(s[1..], pats, sub);
      if |s| > 1 {
        SubAlternativesLast(s[1..], pats, sub);
      }
  }

  /** A prefix in which no character starts an alternative passes through
      unchanged, and the scan goes on after it. */
  lemma {:induction false} SubPassesPrefix(pre: string, rest: string, pats: seq<string>, sub: string)
    requires NonEmpty(pats)
    requires forall k, i | 0 <= k < |pre| && 0 <= i < |pats| :: pre[k] != pats[i][0]
    ensures SubAlternatives(pre + rest, pats, sub) == pre + SubAlternatives(rest, pats, sub)
  {
    if pre == [] {
      assert pre + rest == rest;
    } else {
      var s := pre + rest;
      var tail := SubAlternatives(rest, pats, sub);
      assert FirstPrefix(s, pats).None? by {
        forall i | 0 <= i < |pats|
          ensures !(pats[i] <= s)
        {
          assert s[0] == pre[0] != pats[i][0];
        }
      }
      assert SubAlternatives(pre[1..] + rest, pats, sub) == pre[1..] + tail by {
        SubPassesPrefix(pre[1..], rest, pats, sub);
      }
      assert s[1..] == pre[1..] + rest;
      calc {
        SubAlternatives(s, pats, sub);
        [s[0]] + SubAlternatives(s[1..], pats, sub);
        [pre[0]] + (pre[1..] + tail);
        { assert [pre[0]] + pre[1..] == pre; }
        pre + tail;
      }
    }
  }

  /** Replacing one character by another changes exactly its occurrences. */
  lemma {:induction false} ReplaceCharSpec(s: string, c: char, d: char)
    ensures var r := Replace(s, [c], [d]);
      && |r| == |s|
      && forall i | 0 <= i < |s| :: r[i] == if s[i] == c then d else s[i]
  {
    if s != [] {
      ReplaceCharSpec(s[1..], c, d);
      var tail := Replace(s[1..], [c], [d]);
      if s[0] == c {
        assert FirstPrefix(s, [[c]]) == Some(0) by {
          assert [c] <= s;
        }
        assert Replace(s, [c], [d]) == [d] + tail;
      } else {
        assert FirstPrefix(s, [[c]]) == None;
        assert Replace(s, [c], [d]) == [s[0]] + tail;
      }
    }
  }

  /** `pat in s` for strings: `pat` starts at some position of `s`. */
  predicate Inside(pat: string, s: string)
    decreases |s|
  {
    pat <= s || (s != [] && Inside(pat, s[1..]))
  }

  /** `s.replace(pat, sub)` leaves `s` alone when `pat` does not occur in it. */
  lemma {:induction false} ReplaceOutside(s: string, pat: string, sub: string)
    requires !Inside(pat, s)
    ensures Replace(s, pat, sub) == s
    decreases |s|
  {
    if s != [] {
      assert FirstPrefix(s, [pat]) == None;
      ReplaceOutside(s[1..], pat, sub);
    }
  }

  /** The whole string `pat` is replaced by `sub`. */
  lemma ReplaceWhole(pat: string, sub: string)
    requires pat != []
    ensures Replace(pat, pat, sub) == sub
  {
    assert FirstPrefix(pat, [pat]) == Some(0);
    assert pat[|pat|..] == [];
    calc {
      Replace(pat, pat, sub);
      SubAlternatives(pat, [pat], sub);
      sub + SubAlternatives([], [pat], sub);
    }
  }

  /** Sum of a sequence, accumulated left to right as the source's loops do. */
  function Sum(xs: seq<real>): real {
    if xs == [] then 0.0 else Sum(xs[..|xs| - 1]) + xs[|xs| - 1]
  }

  lemma SumAppend(xs: seq<real>, x: real)
    ensures Sum(xs + [x]) == Sum(xs) + x
  {
    assert (xs + [x])[..|xs|] == xs;
  }

  /** Largest element of a non-empty sequence (Python's `max(xs)`). */
  function Max(xs: seq<real>): (m: real)
    requires xs != []
    ensures m in xs
    ensures forall i | 0 <= i < |xs| :: xs[i] <= m
  {
    if |xs| == 1 then xs[0]
    else
      var m := Max(xs[..|xs| - 1]);
      assert forall i | 0 <= i < |xs| - 1 :: xs[i] == xs[..|xs| - 1][i];
      if xs[|xs| - 1] > m then xs[|xs| - 1] else m
  }
}
