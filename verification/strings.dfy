/** The string operations the dashboard relies on: lower-casing, substring and
    suffix tests, JavaScript's `<` on strings, `Array.prototype.join`,
    `String.prototype.split` on one character, and decimal rendering of the
    row indices that end up in node ids. */
module Strings {

  import Seqs

  /** Lower-cases an ASCII capital; every other character is kept. */
  function LowerChar(c: char): char {
    if 'A' <= c <= 'Z' then (c as int + 32) as char else c
  }

  /** `toLowerCase` on a string, character by character. */
  function Lower(s: string): (r: string)
    ensures |r| == |s|
    ensures forall i :: 0 <= i < |s| ==> r[i] == LowerChar(s[i])
    ensures forall i :: 0 <= i < |r| ==> !('A' <= r[i] <= 'Z')
  {
    seq(|s|, i requires 0 <= i < |s| => LowerChar(s[i]))
  }

  /** Lower-casing a lower-cased string changes nothing. */
  lemma LowerIdempotent(s: string)
    ensures Lower(Lower(s)) == Lower(s)
  {
    var l := Lower(s);
    assert forall i :: 0 <= i < |l| ==> LowerChar(l[i]) == l[i];
  }

  /** `hay.includes(needle)`: `needle` occurs in `hay` at some position. */
  predicate Contains(hay: string, needle: string)
    decreases |hay|
  {
    needle <= hay || (|hay| > 0 && Contains(hay[1..], needle))
  }

  /** An occurrence at position `i` makes `Contains` true. */
  lemma {:induction false} ContainsAt(hay: string, needle: string, i: int)
    requires 0 <= i <= |hay| && needle <= hay[i..]
    ensures Contains(hay, needle)
    decreases i
  {
    if i > 0 {
      assert hay[1..][i - 1..] == hay[i..];
      ContainsAt(hay[1..], needle, i - 1);
    } else {
      assert hay[i..] == hay;
    }
  }

  /** `Contains` being true yields an occurrence. */
  lemma {:induction false} ContainsWitness(hay: string, needle: string) returns (i: int)
    requires Contains(hay, needle)
    ensures 0 <= i <= |hay| && needle <= hay[i..]
    decreases |hay|
  {
    if needle <= hay {
      i := 0;
      assert hay[0..] == hay;
    } else {
      var j := ContainsWitness(hay[1..], needle);
      assert hay[1..][j..] == hay[j + 1..];
      i := j + 1;
    }
  }

  /** The recursive `Contains` is exactly "some suffix of `hay` starts with `needle`". */
  lemma ContainsIff(hay: string, needle: string)
    ensures Contains(hay, needle) <==> exists i :: 0 <= i <= |hay| && needle <= hay[i..]
  {
    if Contains(hay, needle) {
      var i := ContainsWitness(hay, needle);
    }
    if exists i :: 0 <= i <= |hay| && needle <= hay[i..] {
      var i :| 0 <= i <= |hay| && needle <= hay[i..];
      ContainsAt(hay, needle, i);
    }
  }

  /** `s.endsWith(suffix)`. */
  predicate EndsWith(s: string, suffix: string) {
    |suffix| <= |s| && s[|s| - |suffix|..] == suffix
  }

  /** JavaScript's `a < b` on strings: lexicographic by character, a proper
      prefix being smaller. */
  predicate Less(a: string, b: string)
    decreases |a|
  {
    if a == [] then b != []
    else if b == [] then false
    else if a[0] != b[0] then a[0] < b[0]
    else Less(a[1..], b[1..])
  }

  /** `Less` is a strict total order: irreflexive, transitive, and any two
      different strings are comparable. */
  lemma {:induction false} LessIrreflexive(a: string)
    ensures !Less(a, a)
    decreases |a|
  {
    if a != [] {
      LessIrreflexive(a[1..]);
    }
  }

  lemma {:induction false} LessTransitive(a: string, b: string, c: string)
    requires Less(a, b) && Less(b, c)
    ensures Less(a, c)
    decreases |a|
  {
    if a != [] && b != [] && c != [] && a[0] == b[0] && b[0] == c[0] {
      LessTransitive(a[1..], b[1..], c[1..]);
    }
  }

  lemma {:induction false} LessTotal(a: string, b: string)
    ensures a == b || Less(a, b) || Less(b, a)
    decreases |a|
  {
    if a != [] && b != [] && a[0] == b[0] {
      LessTotal(a[1..], b[1..]);
      if a[1..] == b[1..] {
        assert a == [a[0]] + a[1..] && b == [b[0]] + b[1..];
      }
    }
  }

  lemma {:induction false} LessAsymmetric(a: string, b: string)
    requires Less(a, b)
    ensures !Less(b, a)
    decreases |a|
  {
    if a != [] && b != [] && a[0] == b[0] {
      LessAsymmetric(a[1..], b[1..]);
    }
  }

  /** `xs.join(sep)` for a one-character separator; the empty array joins to "". */
  function Join(xs: seq<string>, sep: char): (r: string)
    ensures |xs| == 1 ==> r == xs[0]
  {
    if |xs| == 0 then ""
    else if |xs| == 1 then xs[0]
    else xs[0] + [sep] + Join(xs[1..], sep)
  }

  /** `s.split(sep)` for a one-character separator: the pieces between
      separators, so "" splits to [""]. */
  function Split(s: string, sep: char): (r: seq<string>)
    ensures |r| >= 1
    ensures forall k :: 0 <= k < |r| ==> sep !in r[k]
    decreases |s|
  {
    var i := Seqs.IndexOf(s, sep);
    if i == -1 then [s]
    else [s[..i]] + Split(s[i + 1..], sep)
  }

  /** The first separator of `a + [sep] + b` is the one after `a`. */
  lemma FirstSeparator(a: string, sep: char, b: string)
    requires sep !in a
    ensures Seqs.IndexOf(a + [sep] + b, sep) == |a|
  {
    var s := a + [sep] + b;
    var k := Seqs.IndexOf(s, sep);
    assert s[|a|] == sep;
    assert s[..|a|] == a;
  }

  /** Splitting a string whose first separator follows `a` yields `a`
      and then the pieces of the rest. */
  lemma SplitCons(a: string, sep: char, b: string)
    requires sep !in a
    ensures Split(a + [sep] + b, sep) == [a] + Split(b, sep)
  {
    var s := a + [sep] + b;
    FirstSeparator(a, sep, b);
    assert s[..|a|] == a;
    assert s[|a| + 1..] == b;
  }

  /** Splitting undoes joining when no piece contains the separator. */
  lemma {:induction false} SplitJoin(xs: seq<string>, sep: char)
    requires |xs| >= 1
    requires forall k :: 0 <= k < |xs| ==> sep !in xs[k]
    ensures Split(Join(xs, sep), sep) == xs
    decreases |xs|
  {
    if |xs| == 1 {
      assert Seqs.IndexOf(xs[0], sep) == -1;
    } else {
      SplitCons(xs[0], sep, Join(xs[1..], sep));
      SplitJoin(xs[1..], sep);
      assert xs == [xs[0]] + xs[1..];
    }
  }

  /** Joining undoes splitting, for every string. */
  lemma {:induction false} JoinSplit(s: string, sep: char)
    ensures Join(Split(s, sep), sep) == s
    decreases |s|
  {
    var i := Seqs.IndexOf(s, sep);
    if i == -1 {
      assert Split(s, sep) == [s];
    } else {
      var head, rest := s[..i], s[i + 1..];
      var tail := Split(rest, sep);
      assert Split(s, sep) == [head] + tail;
      JoinSplit(rest, sep);
      JoinCons(head, tail, sep);
      assert s == head + [sep] + rest;
    }
  }

  /** A character that is neither the separator nor in any piece is not in
      the joined string. */
  lemma {:induction false} JoinAvoids(xs: seq<string>, sep: char, c: char)
    requires c != sep
    requires forall k :: 0 <= k < |xs| ==> c !in xs[k]
    ensures c !in Join(xs, sep)
    decreases |xs|
  {
    if |xs| > 1 {
      JoinAvoids(xs[1..], sep, c);
    }
  }

  /** Joining a head with a non-empty tail puts one separator between them. */
  lemma JoinCons(x: string, xs: seq<string>, sep: char)
    requires |xs| >= 1
    ensures Join([x] + xs, sep) == x + [sep] + Join(xs, sep)
  {
    assert ([x] + xs)[1..] == xs;
  }

  /** The decimal digit character for 0..9. */
  function DigitChar(d: nat): (c: char)
    requires d < 10
    ensures '0' <= c <= '9'
  {
    ('0' as int + d) as char
  }

  predicate IsDigits(s: string) {
    forall k :: 0 <= k < |s| ==> '0' <= s[k] <= '9'
  }

  /** The decimal rendering of a row index, as a template literal prints it. */
  function NatToString(n: nat): (r: string)
    ensures |r| >= 1 && IsDigits(r)
    decreases n
  {
    if n < 10 then [DigitChar(n)]
    else NatToString(n / 10) + [DigitChar(n % 10)]
  }

  /** Reads a string of decimal digits back as a number. */
  function ParseNat(s: string): nat
    requires IsDigits(s)
    decreases |s|
  {
    if s == [] then 0
    else ParseNat(s[..|s| - 1]) * 10 + (s[|s| - 1] as int - '0' as int)
  }

  /** Decimal rendering is undone by parsing, so it is injective. */
  lemma {:induction false} ParseNatToString(n: nat)
    ensures ParseNat(NatToString(n)) == n
    decreases n
  {
    if n >= 10 {
      ParseNatToString(n / 10);
      var s := NatToString(n);
      assert s[..|s| - 1] == NatToString(n / 10);
    }
  }

  lemma NatToStringInjective(m: nat, n: nat)
    requires NatToString(m) == NatToString(n)
    ensures m == n
  {
    ParseNatToString(m);
    ParseNatToString(n);
  }

  /** `a + "-" + d` determines `a` and `d` when `d` is a digit string: the
      digits are everything after the last dash. */
  lemma DashDigitsInjective(a: string, d1: string, b: string, d2: string)
    requires IsDigits(d1) && IsDigits(d2)
    requires a + "-" + d1 == b + "-" + d2
    ensures a == b && d1 == d2
  {
    var x := a + "-" + d1;
    var y := b + "-" + d2;
    assert x[|a|] == '-' && y[|b|] == '-';
    if |d1| == |d2| {
      assert |a| == |b|;
      assert a == x[..|a|] && b == y[..|b|];
      assert d1 == x[|a| + 1..] && d2 == y[|b| + 1..];
    }
  }
}
