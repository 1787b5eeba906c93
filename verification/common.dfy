/** Shared vocabulary: optional values, camera poses and the string predicates
    the checkpoint normaliser and the wire format need. */
module Common {

  datatype Option<+T> = None | Some(value: T)

  /** A three-component vector of (floating-point) coordinates. */
  datatype Vec3 = Vec3(x: real, y: real, z: real)

  /** A camera pose: a position and an XYZ Euler rotation. The model never
      computes with poses; it only compares them for equality. */
  datatype Pose = Pose(position: Vec3, rotation: Vec3)

  /** Python's `s.startswith(prefix)`. */
  predicate StartsWith(s: string, prefix: string)
  {
    |prefix| <= |s| && s[..|prefix|] == prefix
  }

  /** `sub` occurs in `s` starting at index `i`. */
  predicate OccursAt(s: string, sub: string, i: int)
  {
    0 <= i && i + |sub| <= |s| && s[i..i + |sub|] == sub
  }

  /** Python's `sub in s` for strings. */
  predicate Contains(s: string, sub: string)
  {
    exists i | 0 <= i <= |s| :: OccursAt(s, sub, i)
  }

  /** Removing a prefix cannot create an occurrence of a substring: whatever
      occurs in a suffix of `s` already occurs in `s`. */
  lemma ContainsInSuffix(s: string, n: nat, sub: string)
    requires n <= |s|
    requires Contains(s[n..], sub)
    ensures Contains(s, sub)
  {
    var t := s[n..];
    var i :| 0 <= i <= |t| && OccursAt(t, sub, i);
    assert 0 <= i && i + |sub| <= |t| && t[i..i + |sub|] == sub;
    assert t[i..i + |sub|] == s[n + i..n + i + |sub|];
    assert OccursAt(s, sub, n + i);
  }

  /** Prepending a prefix and then dropping it gives the original string back,
      and the result starts with the prefix. */
  lemma PrefixRoundTrip(prefix: string, s: string)
    ensures StartsWith(prefix + s, prefix)
    ensures (prefix + s)[|prefix|..] == s
  {
    assert (prefix + s)[..|prefix|] == prefix;
  }

  /** If `p + s` starts with `p + q`, then `s` starts with `q`. */
  lemma StartsWithAfterPrefix(p: string, q: string, s: string)
    requires StartsWith(p + s, p + q)
    ensures StartsWith(s, q)
  {
    forall t | 0 <= t < |q|
      ensures s[t] == q[t]
    {
      assert (p + s)[|p| + t] == (p + q)[|p| + t];
    }
  }
}
