/**
 * `sep.join(parts)` for a one-character separator, and its inverse
 * `s.split(sep)`. The join does not escape separators inside the parts, so the
 * split recovers the parts only when none of them contains the separator.
 */
module Text {

  /** `sep.join(parts)`: the parts in order, one separator between neighbours. */
  function Join(parts: seq<string>, sep: char): string
  {
    if parts == [] then ""
    else if |parts| == 1 then parts[0]
    else parts[0] + [sep] + Join(parts[1..], sep)
  }

  /** `s.split(sep)`: the maximal separator-free pieces, always at least one. */
  function Split(s: string, sep: char): (parts: seq<string>)
    ensures |parts| >= 1
  {
    if s == [] then [""]
    else
      var rest := Split(s[1..], sep);
      if s[0] == sep then [""] + rest
      else [[s[0]] + rest[0]] + rest[1..]
  }

  /** The total number of characters in the parts. */
  function TotalLength(parts: seq<string>): nat
  {
    if parts == [] then 0 else |parts[0]| + TotalLength(parts[1..])
  }

  /** A join has the parts' characters plus one separator between each pair. */
  lemma {:induction false} JoinLength(parts: seq<string>, sep: char)
    requires parts != []
    ensures |Join(parts, sep)| == TotalLength(parts) + |parts| - 1
  {
    if |parts| > 1 {
      JoinLength(parts[1..], sep);
    }
  }

  /** Joining one more part appends a separator and the part. */
  lemma {:induction false} JoinSnoc(parts: seq<string>, x: string, sep: char)
    requires parts != []
    ensures Join(parts + [x], sep) == Join(parts, sep) + [sep] + x
  {
    if |parts| > 1 {
      assert (parts + [x])[1..] == parts[1..] + [x];
      JoinSnoc(parts[1..], x, sep);
      assert Join(parts + [x], sep) == parts[0] + [sep] + (Join(parts[1..], sep) + [sep] + x);
    }
  }

  /** Splitting a separator-free string gives it back whole. */
  lemma {:induction false} SplitWhole(s: string, sep: char)
    requires sep !in s
    ensures Split(s, sep) == [s]
  {
    if s != [] {
      SplitWhole(s[1..], sep);
      assert [s[0]] + s[1..] == s;
    }
  }

  /** A separator after a separator-free prefix ends the first piece there. */
  lemma {:induction false} SplitAtFirst(a: string, sep: char, b: string)
    requires sep !in a
    ensures Split(a + [sep] + b, sep) == [a] + Split(b, sep)
  {
    if a == [] {
      assert [sep] + b == ([] + [sep] + b);
      assert ([sep] + b)[1..] == b;
    } else {
      assert (a + [sep] + b)[1..] == a[1..] + [sep] + b;
      SplitAtFirst(a[1..], sep, b);
      assert [a[0]] + a[1..] == a;
    }
  }

  /** Split undoes Join when no part holds the separator. */
  lemma {:induction false} SplitJoin(parts: seq<string>, sep: char)
    requires parts != []
    requires forall i :: 0 <= i < |parts| ==> sep !in parts[i]
    ensures Split(Join(parts, sep), sep) == parts
  {
    if |parts| == 1 {
      SplitWhole(parts[0], sep);
    } else {
      SplitAtFirst(parts[0], sep, Join(parts[1..], sep));
      SplitJoin(parts[1..], sep);
      assert [parts[0]] + parts[1..] == parts;
    }
  }

  /** Equal-length prefixes that differ keep two strings apart whatever follows. */
  lemma PrefixesDiffer(a: string, b: string, x: string, y: string)
    requires |a| == |b| && a != b
    ensures a + x != b + y
  {
    assert (a + x)[..|a|] == a;
    assert (b + y)[..|b|] == b;
  }

  /**
   * Two joins of the same number of parts that differ in exactly one part
   * differ, separators inside the parts notwithstanding.
   */
  lemma {:induction false} JoinDiffersAtOne(p: seq<string>, q: seq<string>, sep: char, k: nat)
    requires |p| == |q| && k < |p|
    requires p[k] != q[k]
    requires forall i :: 0 <= i < |p| && i != k ==> p[i] == q[i]
    ensures Join(p, sep) != Join(q, sep)
  {
    if |p| == 1 {
    } else if k == 0 {
      assert p[1..] == q[1..];
      if |p[0]| == |q[0]| {
        PrefixesDiffer(p[0], q[0], [sep] + Join(p[1..], sep), [sep] + Join(q[1..], sep));
        assert Join(p, sep) == p[0] + ([sep] + Join(p[1..], sep));
        assert Join(q, sep) == q[0] + ([sep] + Join(q[1..], sep));
      } else {
        JoinLength(p, sep);
        JoinLength(q, sep);
        TotalLengthOneDiffers(p, q, k);
      }
    } else {
      JoinDiffersAtOne(p[1..], q[1..], sep, k - 1);
      var tp, tq := Join(p[1..], sep), Join(q[1..], sep);
      assert p[0] == q[0];
      assert Join(p, sep)[|p[0]| + 1..] == tp;
      assert Join(q, sep)[|q[0]| + 1..] == tq;
    }
  }

  lemma {:induction false} TotalLengthOneDiffers(p: seq<string>, q: seq<string>, k: nat)
    requires |p| == |q| && k < |p|
    requires forall i :: 0 <= i < |p| && i != k ==> p[i] == q[i]
    ensures TotalLength(p) - |p[k]| == TotalLength(q) - |q[k]|
  {
    if k > 0 {
      TotalLengthOneDiffers(p[1..], q[1..], k - 1);
    } else {
      assert p[1..] == q[1..];
    }
  }

  /**
   * Moving a separator across the boundary between two neighbouring parts
   * leaves the join unchanged.
   */
  lemma {:induction false} JoinShiftSeparator(p: seq<string>, q: seq<string>, sep: char, k: nat)
    requires |p| == |q| && k + 1 < |p|
    requires p[..k] == q[..k] && p[k + 2..] == q[k + 2..]
    requires p[k] + [sep] + p[k + 1] == q[k] + [sep] + q[k + 1]
    ensures Join(p, sep) == Join(q, sep)
  {
    if k == 0 {
      if |p| == 2 {
      } else {
        var rp, rq := Join(p[2..], sep), Join(q[2..], sep);
        assert p[1..][1..] == p[2..] && q[1..][1..] == q[2..];
        assert Join(p, sep) == (p[0] + [sep] + p[1]) + [sep] + rp;
        assert Join(q, sep) == (q[0] + [sep] + q[1]) + [sep] + rq;
      }
    } else {
      assert p[0] == p[..k][0] == q[..k][0] == q[0];
      assert p[1..][..k - 1] == q[1..][..k - 1];
      assert p[1..][k + 1..] == q[1..][k + 1..];
      JoinShiftSeparator(p[1..], q[1..], sep, k - 1);
    }
  }

  /** The second part sits in a join right after the first part and its separator. */
  lemma JoinSecond(p: seq<string>, sep: char)
    requires |p| >= 2
    ensures |Join(p, sep)| >= |p[0]| + 1 + |p[1]|
    ensures Join(p, sep)[|p[0]| + 1 .. |p[0]| + 1 + |p[1]|] == p[1]
  {
    var rest := if |p| == 2 then [] else [sep] + Join(p[2..], sep);
    assert p[1..][1..] == p[2..];
    assert Join(p[1..], sep) == p[1] + rest;
    assert Join(p, sep) == (p[0] + [sep]) + p[1] + rest;
  }
}
