/** The parts of JavaScript that the page list leans on: optional values,
    calls that throw, `String.prototype.indexOf`, `String.prototype.split`
    on one separator character, `Array.prototype.indexOf` and the decimal
    rendering of a number inside a template literal. */
module Builtins {

  datatype Option<T> = None | Some(value: T)

  /** What a call does: it returns a value, or it throws the TypeError that
      JavaScript raises when a property of `undefined` is read. */
  datatype Outcome<T> = Returned(value: T) | TypeError

  // ---------------------------------------------------------------------
  // Substring search

  /** Pattern `p` occurs in `s` starting at index `k`. */
  ghost predicate OccursAt(s: string, p: string, k: int) {
    0 <= k && k + |p| <= |s| && s[k..k + |p|] == p
  }

  ghost predicate Contains(s: string, p: string) {
    exists k :: OccursAt(s, p, k)
  }

  /** `s.indexOf(p, from)`: the first index at or after `from` where `p`
      occurs, or -1 when there is none. */
  function IndexOfFrom(s: string, p: string, from: nat): (r: int)
    ensures r == -1 || (from <= r && OccursAt(s, p, r))
    ensures r == -1 <==> forall k :: from <= k ==> !OccursAt(s, p, k)
    ensures forall k :: from <= k < r ==> !OccursAt(s, p, k)
    decreases |s| - from
  {
    if from + |p| > |s| then -1
    else if s[from..from + |p|] == p then from
    else IndexOfFrom(s, p, from + 1)
  }

  /** `s.indexOf(p)`: -1 exactly when `p` is not a substring of `s`,
      otherwise the index of its first occurrence. */
  function IndexOf(s: string, p: string): (r: int)
    ensures r == -1 <==> !Contains(s, p)
    ensures r != -1 ==> OccursAt(s, p, r) && forall k :: 0 <= k < r ==> !OccursAt(s, p, k)
  {
    IndexOfFrom(s, p, 0)
  }

  /** An occurrence found at a known place makes `p` a substring. */
  lemma OccurrenceWitness(a: string, p: string, b: string)
    ensures Contains(a + p + b, p)
  {
    var s := a + p + b;
    assert s[|a|..|a| + |p|] == p;
    assert OccursAt(s, p, |a|);
  }

  // ---------------------------------------------------------------------
  // Splitting on one separator character

  /** The pieces joined back with `sep` between them (`Array.prototype.join`). */
  function Join(ps: seq<string>, sep: char): string
    requires |ps| >= 1
  {
    if |ps| == 1 then ps[0] else ps[0] + [sep] + Join(ps[1..], sep)
  }

  ghost predicate SeparatorFree(ps: seq<string>, sep: char) {
    forall i :: 0 <= i < |ps| ==> sep !in ps[i]
  }

  /** `s.split(sep)` for a one-character separator: at least one piece, no
      piece contains the separator, and joining the pieces gives `s` back. */
  function Split(s: string, sep: char): (r: seq<string>)
    ensures |r| >= 1
    ensures SeparatorFree(r, sep)
    ensures Join(r, sep) == s
  {
    if |s| == 0 then [""]
    else if s[0] == sep then
      var rest := Split(s[1..], sep);
      assert s == [] + [sep] + Join(rest, sep);
      [""] + rest
    else
      var rest := Split(s[1..], sep);
      var r := [[s[0]] + rest[0]] + rest[1..];
      assert r[1..] == rest[1..];
      assert |rest| > 1 ==> Join(rest, sep) == rest[0] + [sep] + Join(rest[1..], sep);
      r
  }

  /** Separator-free pieces are determined by their join. */
  lemma {:induction false} JoinInjective(ps: seq<string>, qs: seq<string>, sep: char)
    requires |ps| >= 1 && |qs| >= 1
    requires SeparatorFree(ps, sep) && SeparatorFree(qs, sep)
    requires Join(ps, sep) == Join(qs, sep)
    ensures ps == qs
  {
    var s := Join(ps, sep);
    JoinHead(ps, sep);
    JoinHead(qs, sep);
    // both first pieces are the longest separator-free prefix of s
    assert |ps[0]| == |qs[0]|;
    assert ps[0] == s[..|ps[0]|] == qs[0];
    if |ps| == 1 || |qs| == 1 {
      assert |ps| == 1 && |qs| == 1;
    } else {
      var tail := s[|ps[0]| + 1..];
      assert Join(ps[1..], sep) == tail by {
        assert s == ps[0] + [sep] + Join(ps[1..], sep);
      }
      assert Join(qs[1..], sep) == tail by {
        assert s == qs[0] + [sep] + Join(qs[1..], sep);
      }
      JoinInjective(ps[1..], qs[1..], sep);
      assert ps == [ps[0]] + ps[1..];
      assert qs == [qs[0]] + qs[1..];
    }
  }

  /** The first piece is a prefix of the join, followed by the separator
      exactly when more pieces follow. */
  lemma JoinHead(ps: seq<string>, sep: char)
    requires |ps| >= 1
    ensures var s := Join(ps, sep);
      |ps[0]| <= |s| && ps[0] == s[..|ps[0]|] &&
      (|ps| == 1 <==> |ps[0]| == |s|) &&
      (|ps| > 1 ==> s[|ps[0]|] == sep && s[|ps[0]| + 1..] == Join(ps[1..], sep))
  {
    if |ps| > 1 {
      var s := Join(ps, sep);
      assert s == ps[0] + [sep] + Join(ps[1..], sep);
      assert s[|ps[0]| + 1..] == Join(ps[1..], sep);
    }
  }

  /** Round trip the other way: splitting a join of separator-free pieces
      gives the pieces back. */
  lemma SplitJoin(ps: seq<string>, sep: char)
    requires |ps| >= 1 && SeparatorFree(ps, sep)
    ensures Split(Join(ps, sep), sep) == ps
  {
    JoinInjective(Split(Join(ps, sep), sep), ps, sep);
  }

  /** `a` is the text of `s` before the first `sep` (all of `s` when it has
      none). */
  ghost predicate IsFirstPiece(s: string, sep: char, a: string) {
    |a| <= |s| && a == s[..|a|] && sep !in a && (|a| == |s| || s[|a|] == sep)
  }

  /** `s.split(sep)[0]` is the text before the first separator, and there is
      a second piece exactly when `s` contains the separator; that piece is
      the text between the first and the second separator. */
  lemma SplitPieces(s: string, sep: char)
    ensures var r := Split(s, sep);
      IsFirstPiece(s, sep, r[0]) &&
      (|r| > 1 <==> sep in s) &&
      (|r| > 1 ==> IsFirstPiece(s[|r[0]| + 1..], sep, r[1]))
  {
    var r := Split(s, sep);
    JoinHead(r, sep);
    if |r| > 1 {
      assert s[|r[0]|] == sep;
      JoinHead(r[1..], sep);
    } else {
      assert s == r[0];
    }
  }

  // ---------------------------------------------------------------------
  // Array search

  /** `a.indexOf(x)` with strict equality: -1 exactly when `x` is absent,
      otherwise the index of its first occurrence. */
  function FirstIndex<T(==)>(a: seq<T>, x: T): (r: int)
    ensures r == -1 <==> x !in a
    ensures r != -1 ==> 0 <= r < |a| && a[r] == x && x !in a[..r]
  {
    if |a| == 0 then -1
    else if a[0] == x then 0
    else
      var k := FirstIndex(a[1..], x);
      if k == -1 then -1
      else
        assert a[..k + 1] == [a[0]] + a[1..][..k];
        k + 1
  }

  // ---------------------------------------------------------------------
  // Numbers in template literals

  function DigitChar(d: nat): (c: char)
    requires d < 10
  {
    ('0' as int + d) as char
  }

  /** The decimal digits of `n`, as `${n}` renders a non-negative integer. */
  function Decimal(n: nat): (r: string)
    ensures |r| >= 1
    ensures forall i :: 0 <= i < |r| ==> '0' <= r[i] <= '9'
    ensures n >= 10 <==> |r| > 1
    ensures |r| > 1 ==> r[0] != '0'
  {
    if n < 10 then [DigitChar(n)] else Decimal(n / 10) + [DigitChar(n % 10)]
  }

  /** The number a string of decimal digits stands for. */
  function DecimalValue(s: string): int
    requires forall i :: 0 <= i < |s| ==> '0' <= s[i] <= '9'
  {
    if |s| == 0 then 0 else 10 * DecimalValue(s[..|s| - 1]) + (s[|s| - 1] as int - '0' as int)
  }

  /** Rendering a number in decimal loses nothing: reading the digits back
      gives the number. */
  lemma {:induction false} DecimalRoundTrip(n: nat)
    ensures DecimalValue(Decimal(n)) == n
  {
    var r := Decimal(n);
    if n >= 10 {
      DecimalRoundTrip(n / 10);
      assert r[..|r| - 1] == Decimal(n / 10);
      assert r[|r| - 1] as int - '0' as int == n % 10;
    }
  }
}
