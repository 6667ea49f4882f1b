/**
 * The order of `std::string`, by which directory names are sorted (src/executor.cpp:435-468) and
 * directories of one depth are sealed (src/source_archive_libarchive.cpp:383-391).
 */
module TextOrder {
  /** Character by character; a proper prefix comes first. */
  predicate Less(a: string, b: string) {
    if a == [] then b != []
    else if b == [] then false
    else a[0] < b[0] || (a[0] == b[0] && Less(a[1..], b[1..]))
  }

  lemma {:induction false} LessIsStrict(a: string, b: string, c: string)
    ensures !Less(a, a)
    ensures Less(a, b) && Less(b, c) ==> Less(a, c)
    ensures Less(a, b) || Less(b, a) || a == b
    ensures !(Less(a, b) && Less(b, a))
    decreases |a|
  {
    if a != [] && b != [] {
      LessIsStrict(a[1..], b[1..], if c == [] then [] else c[1..]);
      assert a == [a[0]] + a[1..] && b == [b[0]] + b[1..];
    } else if a != [] {
      LessIsStrict(a[1..], [], []);
    }
  }

  /** Up to place `k` they agree, and there the first one ends or has the smaller character. */
  predicate LessFrom(a: string, b: string, k: int) {
    && 0 <= k <= |a| && k < |b| && a[..k] == b[..k]
    && (k == |a| || a[k] < b[k])
  }

  /** One text comes before another exactly if it does so at the first place where they differ. */
  lemma {:induction false} LessExactly(a: string, b: string)
    ensures Less(a, b) <==> exists k :: LessFrom(a, b, k)
  {
    if a == [] || b == [] {
      if b != [] {
        assert LessFrom(a, b, 0);
      }
    } else {
      LessExactly(a[1..], b[1..]);
      if a[0] < b[0] {
        assert LessFrom(a, b, 0);
      }
      if k :| LessFrom(a[1..], b[1..], k) && a[0] == b[0] {
        assert a == [a[0]] + a[1..] && b == [b[0]] + b[1..];
        assert k + 1 < |a| ==> a[1..][k] == a[k + 1];
        assert b[1..][k] == b[k + 1];
        assert LessFrom(a, b, k + 1);
      }
      if k :| LessFrom(a, b, k) && k > 0 {
        assert a[0] == a[..k][0] == b[..k][0] == b[0];
        assert a[1..][..k - 1] == a[..k][1..] && b[1..][..k - 1] == b[..k][1..];
        assert LessFrom(a[1..], b[1..], k - 1);
      }
    }
  }
}
