/// Equality of two digests by one accumulated difference.
module Auth {
  import opened Text

  /// A 32-byte digest.
  type Digest = bytes: seq<bv8> | |bytes| == 32 witness seq(32, _ => 0)

  /// There is a token, and its digest is the expected one.
  predicate Matches(digest: string -> Digest, presented: Option<string>, expected: Digest) {
    presented.Some? && digest(presented.value) == expected
  }

  lemma DifferenceGrows(difference: bv8, a: bv8, b: bv8)
    ensures (difference | (a ^ b)) == 0 <==> difference == 0 && a == b
  {
  }

  /// The comparison reads every byte whatever the first ones said, and still answers equality.
  method Verify(digest: string -> Digest, presented: Option<string>, expected: Digest)
    returns (authentic: bool)
    ensures authentic <==> Matches(digest, presented, expected)
  {
    if presented.None? { return false; }
    var offered := digest(presented.value);
    var difference: bv8 := 0;
    for i := 0 to 32
      invariant difference == 0 <==> offered[..i] == expected[..i]
    {
      DifferenceGrows(difference, offered[i], expected[i]);
      assert offered[..i + 1] == offered[..i] + [offered[i]];
      assert expected[..i + 1] == expected[..i] + [expected[i]];
      difference := difference | (offered[i] ^ expected[i]);
    }
    assert offered[..32] == offered && expected[..32] == expected;
    return difference == 0;
  }
}
