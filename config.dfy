/**
 * The parsing of the disturb setting in src/config/sensitive.php: the raw
 * environment value, when present, is split into single characters, duplicates
 * are dropped (first occurrence kept), falsy pieces are dropped and the list is
 * re-indexed.
 */
module DisturbConfig {
  import opened Wrappers

  /** `preg_split('//u', s)`: an empty piece, each character as a one-character string, an empty piece. */
  function SplitChars(s: string): (r: seq<string>)
    ensures |r| == |s| + 2 && r[0] == "" && r[|r| - 1] == ""
    ensures forall k :: 0 <= k < |s| ==> r[k + 1] == [s[k]]
  {
    [""] + seq(|s|, k requires 0 <= k < |s| => [s[k]]) + [""]
  }

  /** No element of `xs` occurs twice. */
  predicate Distinct<T(==)>(xs: seq<T>) {
    forall i, j :: 0 <= i < j < |xs| ==> xs[i] != xs[j]
  }

  /** The offset of the first occurrence of `x` in `xs`. */
  function IndexOf<T(==)>(xs: seq<T>, x: T): (r: nat)
    requires x in xs
    ensures r < |xs| && xs[r] == x
    ensures forall k :: 0 <= k < r ==> xs[k] != x
  {
    if xs[0] == x then 0 else 1 + IndexOf(xs[1..], x)
  }

  /** `array_unique`: the elements of `xs` without repetitions, each kept at its first occurrence. */
  function Unique<T(==,!new)>(xs: seq<T>): (r: seq<T>)
    ensures forall x :: x in r <==> x in xs
    ensures Distinct(r)
    decreases |xs|
  {
    if xs == [] then []
    else
      var u := Unique(xs[..|xs| - 1]);
      if xs[|xs| - 1] in u then u else u + [xs[|xs| - 1]]
  }

  /** The elements of `r` appear in the order of their first occurrences in `xs`. */
  ghost predicate InFirstOccurrenceOrder<T(!new)>(r: seq<T>, xs: seq<T>)
    requires forall x :: x in r ==> x in xs
  {
    forall i, j :: 0 <= i < j < |r| ==> IndexOf(xs, r[i]) < IndexOf(xs, r[j])
  }

  /** PHP's truthiness of a string: neither "" nor "0". */
  predicate Truthy(x: string) {
    x != "" && x != "0"
  }

  /** `array_values(array_filter(xs))`: the truthy elements of `xs`, in order. */
  function KeepTruthy(xs: seq<string>): (r: seq<string>)
    ensures forall x :: x in r <==> x in xs && Truthy(x)
    decreases |xs|
  {
    if xs == [] then []
    else (if Truthy(xs[0]) then [xs[0]] else []) + KeepTruthy(xs[1..])
  }

  /** The `disturbs` setting computed from the environment value; an absent value stays absent. */
  function ParseDisturbs(env: Option<string>): (r: Option<seq<string>>)
    ensures r.None? <==> env.None?
    ensures r.Some? ==> forall x :: x in r.value ==> |x| == 1 && x[0] in env.value && x != "0"
    ensures r.Some? ==> forall k :: 0 <= k < |env.value| && env.value[k] != '0' ==> [env.value[k]] in r.value
  {
    match env
    case None => None
    case Some(s) =>
      var r := KeepTruthy(Unique(SplitChars(s)));
      assert forall k :: 0 <= k < |s| ==> SplitChars(s)[k + 1] == [s[k]];
      Some(r)
  }

  /** The first occurrence of `x` in a prefix that contains it is its first occurrence in the whole sequence. */
  lemma {:induction false} IndexOfInPrefix<T>(xs: seq<T>, n: nat, x: T)
    requires n <= |xs| && x in xs[..n]
    ensures IndexOf(xs, x) == IndexOf(xs[..n], x)
    decreases n
  {
    if xs[0] != x {
      assert xs[..n][0] == xs[0];
      assert xs[..n][1..] == xs[1..][..n - 1];
      IndexOfInPrefix(xs[1..], n - 1, x);
    }
  }

  /** `array_unique` keeps the order of first occurrences. */
  lemma {:induction false} UniqueOrder<T(!new)>(xs: seq<T>)
    ensures InFirstOccurrenceOrder(Unique(xs), xs)
    decreases |xs|
  {
    if xs != [] {
      var n := |xs| - 1;
      var front := xs[..n];
      var u := Unique(front);
      UniqueOrder(front);
      var r := Unique(xs);
      forall i, j | 0 <= i < j < |r| ensures IndexOf(xs, r[i]) < IndexOf(xs, r[j]) {
        IndexOfInPrefix(xs, n, r[i]);
        if j < |u| {
          IndexOfInPrefix(xs, n, r[j]);
        } else {
          assert r[j] == xs[n] && r[j] !in front;
          assert IndexOf(xs, r[j]) == n;
        }
      }
    }
  }

  /** Dropping the falsy pieces keeps the remaining pieces in their order. */
  lemma {:induction false} KeepTruthyOrder(u: seq<string>, xs: seq<string>)
    requires forall x :: x in u ==> x in xs
    requires InFirstOccurrenceOrder(u, xs)
    ensures InFirstOccurrenceOrder(KeepTruthy(u), xs)
    decreases |u|
  {
    if u != [] {
      assert InFirstOccurrenceOrder(u[1..], xs) by {
        forall i, j | 0 <= i < j < |u[1..]| ensures IndexOf(xs, u[1..][i]) < IndexOf(xs, u[1..][j]) {
          assert u[1..][i] == u[i + 1] && u[1..][j] == u[j + 1];
        }
      }
      KeepTruthyOrder(u[1..], xs);
      var t := KeepTruthy(u[1..]);
      var r := KeepTruthy(u);
      if Truthy(u[0]) {
        forall i, j | 0 <= i < j < |r| ensures IndexOf(xs, r[i]) < IndexOf(xs, r[j]) {
          assert r[j] == t[j - 1];
          if i == 0 {
            assert r[j] in t && r[j] in u[1..];
            var m :| 0 <= m < |u[1..]| && u[1..][m] == r[j];
            assert r[j] == u[m + 1];
          } else {
            assert r[i] == t[i - 1];
          }
        }
      } else {
        assert r == t;
      }
    }
  }

  /** Dropping pieces cannot introduce repetitions. */
  lemma {:induction false} KeepTruthyDistinct(u: seq<string>)
    requires Distinct(u)
    ensures Distinct(KeepTruthy(u))
    decreases |u|
  {
    if u != [] {
      var tail := u[1..];
      assert Distinct(tail) by {
        forall i, j | 0 <= i < j < |tail| ensures tail[i] != tail[j] {
          assert tail[i] == u[i + 1] && tail[j] == u[j + 1];
        }
      }
      KeepTruthyDistinct(tail);
      var t := KeepTruthy(tail);
      assert u[0] !in t by {
        forall m | 0 <= m < |tail| ensures tail[m] != u[0] {
          assert tail[m] == u[m + 1];
        }
      }
      if Truthy(u[0]) {
        var r := [u[0]] + t;
        assert KeepTruthy(u) == r;
        forall i, j | 0 <= i < j < |r| ensures r[i] != r[j] {
          assert r[j] == t[j - 1];
          if i > 0 { assert r[i] == t[i - 1]; }
        }
      } else {
        assert KeepTruthy(u) == [] + t;
        assert [] + t == t;
      }
    }
  }

  /** The offset of the piece `[c]` among the split pieces is one past the first offset of `c` in the text. */
  lemma SplitIndex(s: string, c: char)
    requires c in s
    ensures [c] in SplitChars(s) && IndexOf(SplitChars(s), [c]) == IndexOf(s, c) + 1
  {
    var p := SplitChars(s);
    var a := IndexOf(s, c);
    assert p[a + 1] == [c];
  }

  /** The parsed disturb list has no repetitions. */
  lemma ParseDisturbsDistinct(s: string)
    ensures Distinct(ParseDisturbs(Some(s)).value)
  {
    var u := Unique(SplitChars(s));
    assert ParseDisturbs(Some(s)).value == KeepTruthy(u);
    KeepTruthyDistinct(u);
  }

  /** The parsed disturb list follows the order in which each character first occurs in the setting. */
  lemma ParseDisturbsOrder(s: string)
    ensures var r := ParseDisturbs(Some(s)).value;
      forall i, j :: 0 <= i < j < |r| ==> IndexOf(s, r[i][0]) < IndexOf(s, r[j][0])
  {
    var p := SplitChars(s);
    var u := Unique(p);
    UniqueOrder(p);
    KeepTruthyOrder(u, p);
    var r := KeepTruthy(u);
    assert ParseDisturbs(Some(s)).value == r;
    forall i, j | 0 <= i < j < |r| ensures r[i][0] in s && r[j][0] in s && IndexOf(s, r[i][0]) < IndexOf(s, r[j][0]) {
      assert r[i] in r && r[j] in r;
      assert r[i] == [r[i][0]] && r[j] == [r[j][0]];
      SplitIndex(s, r[i][0]);
      SplitIndex(s, r[j][0]);
    }
  }
}
