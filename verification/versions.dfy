/** Package versions and their total order.

    A version is its release segment, the dot-separated numbers `1.2.3`,
    compared number by number from the left, a proper prefix sorting first. */
module Versions {
  import Text

  datatype Version = Version(release: seq<nat>)

  /** Lexicographic order on release segments. */
  predicate LexLe(a: seq<nat>, b: seq<nat>)
  {
    |a| == 0 || (|b| > 0 && (a[0] < b[0] || (a[0] == b[0] && LexLe(a[1..], b[1..]))))
  }

  predicate Le(a: Version, b: Version) {
    LexLe(a.release, b.release)
  }

  predicate Lt(a: Version, b: Version) {
    Le(a, b) && a != b
  }

  lemma {:induction false} LexLeReflexive(a: seq<nat>)
    ensures LexLe(a, a)
  {
    if |a| > 0 {
      LexLeReflexive(a[1..]);
    }
  }

  lemma {:induction false} LexLeAntisymmetric(a: seq<nat>, b: seq<nat>)
    requires LexLe(a, b) && LexLe(b, a)
    ensures a == b
  {
    if |a| > 0 && |b| > 0 {
      LexLeAntisymmetric(a[1..], b[1..]);
      assert a == [a[0]] + a[1..];
      assert b == [b[0]] + b[1..];
    }
  }

  lemma {:induction false} LexLeTransitive(a: seq<nat>, b: seq<nat>, c: seq<nat>)
    requires LexLe(a, b) && LexLe(b, c)
    ensures LexLe(a, c)
  {
    if |a| > 0 && |b| > 0 && |c| > 0 && a[0] == b[0] == c[0] {
      LexLeTransitive(a[1..], b[1..], c[1..]);
    }
  }

  lemma {:induction false} LexLeTotal(a: seq<nat>, b: seq<nat>)
    ensures LexLe(a, b) || LexLe(b, a)
  {
    if |a| > 0 && |b| > 0 && a[0] == b[0] {
      LexLeTotal(a[1..], b[1..]);
    }
  }

  /** `Le` is a total order on versions: reflexive, antisymmetric, transitive and total. */
  lemma LeIsTotalOrder()
    ensures forall a :: Le(a, a)
    ensures forall a, b :: Le(a, b) && Le(b, a) ==> a == b
    ensures forall a, b, c :: Le(a, b) && Le(b, c) ==> Le(a, c)
    ensures forall a, b :: Le(a, b) || Le(b, a)
  {
    forall a: Version ensures Le(a, a) {
      LexLeReflexive(a.release);
    }
    forall a: Version, b: Version | Le(a, b) && Le(b, a) ensures a == b {
      LexLeAntisymmetric(a.release, b.release);
    }
    forall a: Version, b: Version, c: Version | Le(a, b) && Le(b, c) ensures Le(a, c) {
      LexLeTransitive(a.release, b.release, c.release);
    }
    forall a: Version, b: Version ensures Le(a, b) || Le(b, a) {
      LexLeTotal(a.release, b.release);
    }
  }

  /** Python's `max(vs)`: scan left to right, replacing the candidate only by a
      strictly greater version. */
  function Max(vs: seq<Version>): (m: Version)
    requires |vs| > 0
    ensures m in vs
    ensures forall i :: 0 <= i < |vs| ==> Le(vs[i], m)
  {
    if |vs| == 1 then
      LexLeReflexive(vs[0].release);
      vs[0]
    else
      var init := vs[..|vs| - 1];
      var last := vs[|vs| - 1];
      var m := Max(init);
      assert forall i :: 0 <= i < |vs| - 1 ==> vs[i] == init[i];
      LeIsTotalOrder();
      if Lt(m, last) then last else m
  }

  /** The decimal numeral of each number of a release segment. */
  function Numerals(ns: seq<nat>): (parts: seq<string>)
    ensures |parts| == |ns|
    ensures forall k :: 0 <= k < |ns| ==> parts[k] == Text.NatToString(ns[k])
  {
    if |ns| == 0 then [] else [Text.NatToString(ns[0])] + Numerals(ns[1..])
  }

  /** Python's `str(version)`: the numbers joined by dots. */
  function Format(v: Version): string
  {
    Text.Join(Numerals(v.release), '.')
  }

  /** Distinct versions print differently, so an annotation naming two versions
      never shows the same text twice. */
  lemma FormatInjective(a: Version, b: Version)
    requires Format(a) == Format(b)
    ensures a == b
  {
    var pa := Numerals(a.release);
    var pb := Numerals(b.release);
    if |a.release| == 0 || |b.release| == 0 {
      if |a.release| > 0 {
        JoinOfNonEmptyParts(pa);
      } else if |b.release| > 0 {
        JoinOfNonEmptyParts(pb);
      }
    } else {
      NumbersHaveNoDot(pa);
      NumbersHaveNoDot(pb);
      Text.SplitJoin(pa, '.');
      Text.SplitJoin(pb, '.');
      assert pa == pb;
      forall i | 0 <= i < |a.release|
        ensures a.release[i] == b.release[i]
      {
        assert Text.DigitsValue(pa[i]) == a.release[i];
        assert Text.DigitsValue(pb[i]) == b.release[i];
      }
    }
  }

  /** Only digits and dots. */
  predicate DigitsAndDots(s: string) {
    forall k :: 0 <= k < |s| ==> Text.IsDigit(s[k]) || s[k] == '.'
  }

  /** A formatted version consists of digits and dots only. */
  lemma FormatChars(v: Version)
    ensures DigitsAndDots(Format(v))
  {
    NumeralsJoinChars(v.release);
  }

  lemma {:induction false} NumeralsJoinChars(ns: seq<nat>)
    ensures DigitsAndDots(Text.Join(Numerals(ns), '.'))
  {
    var parts := Numerals(ns);
    if |ns| == 1 {
      assert Text.AllDigits(parts[0]);
    } else if |ns| > 1 {
      NumeralsJoinChars(ns[1..]);
      assert parts[1..] == Numerals(ns[1..]);
      var head := parts[0];
      var tail := Text.Join(parts[1..], '.');
      assert Text.AllDigits(head);
      assert DigitsAndDots(tail);
      var s := Text.Join(parts, '.');
      assert s == head + ['.'] + tail;
      forall k | 0 <= k < |s|
        ensures Text.IsDigit(s[k]) || s[k] == '.'
      {
        if k < |head| {
          assert s[k] == head[k];
        } else if k > |head| {
          assert s[k] == tail[k - |head| - 1];
        }
      }
    }
  }

  lemma NumbersHaveNoDot(parts: seq<string>)
    requires forall k :: 0 <= k < |parts| ==> Text.AllDigits(parts[k])
    ensures forall k :: 0 <= k < |parts| ==> '.' !in parts[k]
  {
    assert !Text.IsDigit('.');
  }

  lemma {:induction false} JoinOfNonEmptyParts(parts: seq<string>)
    requires |parts| > 0 && |parts[0]| > 0
    ensures |Text.Join(parts, '.')| > 0
  {
  }

  /** `str(Version("0.1.3"))` prints `0.1.3`, and likewise for 0.1.2. */
  lemma FormatExample()
    ensures Format(Version([0, 1, 3])) == "0.1.3"
    ensures Format(Version([0, 1, 2])) == "0.1.2"
  {
    assert Numerals([0, 1, 3]) == ["0", "1", "3"];
    assert Numerals([0, 1, 2]) == ["0", "1", "2"];
  }
}
