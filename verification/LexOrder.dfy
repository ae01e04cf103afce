/** The byte-wise order `bytesCompare` decides. */
module LexOrder {
  import opened Bytes

  /** `a` comes before `b`: it is a proper prefix, or smaller at the first difference. */
  predicate Before(a: Bytes, b: Bytes) {
    if a == [] then b != []
    else b != [] && (a[0] < b[0] || (a[0] == b[0] && Before(a[1..], b[1..])))
  }

  lemma {:induction false} BeforeTrichotomy(a: Bytes, b: Bytes)
    ensures !(Before(a, b) && Before(b, a))
    ensures a != b <==> Before(a, b) || Before(b, a)
  {
    if a != [] && b != [] && a[0] == b[0] {
      BeforeTrichotomy(a[1..], b[1..]);
      assert a == [a[0]] + a[1..] && b == [b[0]] + b[1..];
    }
  }

  lemma {:induction false} BeforeTransitive(a: Bytes, b: Bytes, c: Bytes)
    requires Before(a, b) && Before(b, c)
    ensures Before(a, c)
  {
    if a != [] && a[0] == b[0] == c[0] {
      BeforeTransitive(a[1..], b[1..], c[1..]);
    }
  }

  /** A common prefix does not decide the order. */
  lemma {:induction false} BeforeAfterCommonPrefix(a: Bytes, b: Bytes, n: nat)
    requires n <= |a| && n <= |b| && a[..n] == b[..n]
    ensures Before(a, b) <==> Before(a[n..], b[n..])
  {
    if n > 0 {
      assert a[0] == a[..n][0] == b[..n][0] == b[0];
      assert a[1..][..n - 1] == a[..n][1..] && b[1..][..n - 1] == b[..n][1..];
      BeforeAfterCommonPrefix(a[1..], b[1..], n - 1);
      assert a[1..][n - 1..] == a[n..] && b[1..][n - 1..] == b[n..];
    } else {
      assert a[0..] == a && b[0..] == b;
    }
  }

  /** What the order is: a common prefix, then the end of the first or a smaller byte in it. */
  lemma BeforeByFirstDifference(a: Bytes, b: Bytes)
    ensures Before(a, b) <==>
            exists n :: 0 <= n <= |a| && n <= |b| && a[..n] == b[..n]
                        && (n == |a| < |b| || (n < |a| && n < |b| && a[n] < b[n]))
  {
    if Before(a, b) {
      var n := FirstDifference(a, b);
      assert a[..n] == b[..n];
    }
    forall n | 0 <= n <= |a| && n <= |b| && a[..n] == b[..n]
               && (n == |a| < |b| || (n < |a| && n < |b| && a[n] < b[n]))
      ensures Before(a, b)
    {
      BeforeAfterCommonPrefix(a, b, n);
    }
  }

  lemma {:induction false} FirstDifference(a: Bytes, b: Bytes) returns (n: nat)
    requires Before(a, b)
    ensures n <= |a| && n <= |b| && a[..n] == b[..n]
    ensures n == |a| < |b| || (n < |a| && n < |b| && a[n] < b[n])
  {
    if a == [] || a[0] < b[0] {
      n := 0;
    } else {
      var m := FirstDifference(a[1..], b[1..]);
      n := m + 1;
      assert a[..n] == [a[0]] + a[1..][..m] && b[..n] == [b[0]] + b[1..][..m];
    }
  }

  /** The sign of the result tells the order of the arguments: negative, if at the end of their
      common prefix the first one ends or has the smaller byte. */
  method BytesCompare(a: Bytes, b: Bytes) returns (r: int)
    ensures r == -1 || r == 0 || r == 1
    ensures r < 0 <==> Before(a, b)
    ensures r == 0 <==> a == b
    ensures r > 0 <==> Before(b, a)
    ensures r < 0 <==> exists n :: 0 <= n <= |a| && n <= |b| && a[..n] == b[..n]
                                   && (n == |a| < |b| || (n < |a| && n < |b| && a[n] < b[n]))
    ensures r > 0 <==> exists n :: 0 <= n <= |b| && n <= |a| && b[..n] == a[..n]
                                   && (n == |b| < |a| || (n < |b| && n < |a| && b[n] < a[n]))
  {
    BeforeByFirstDifference(a, b);
    BeforeByFirstDifference(b, a);
    var aLen, bLen := |a|, |b|;
    var minLen := if aLen < bLen then aLen else bLen;
    BeforeTrichotomy(a, b);
    for i := 0 to minLen
      invariant a[..i] == b[..i]
    {
      BeforeAfterCommonPrefix(a, b, i);
      BeforeAfterCommonPrefix(b, a, i);
      if a[i] < b[i] {
        return -1;
      } else if a[i] > b[i] {
        return 1;
      }
      assert a[..i + 1] == a[..i] + [a[i]] && b[..i + 1] == b[..i] + [b[i]];
    }
    BeforeAfterCommonPrefix(a, b, minLen);
    BeforeAfterCommonPrefix(b, a, minLen);
    if aLen > minLen {
      return 1;
    }
    if bLen > minLen {
      return -1;
    }
    assert a == a[..minLen] == b[..minLen] == b;
    return 0;
  }
}
