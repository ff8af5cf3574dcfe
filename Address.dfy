/** `truncateAddress`: the short form in which the pane shows the mixer contract's address. */
module Address {

  /** Up to ten characters are shown as they are; a longer text keeps its first six and last four characters around `...`. */
  function TruncateAddress(addr: string): (r: string)
    ensures |r| == if |addr| <= 10 then |addr| else 13
    ensures |addr| <= 10 ==> r == addr
  {
    if |addr| <= 10 then addr else addr[..6] + "..." + addr[|addr| - 4..]
  }

  /** A shortened address starts with the address's first six characters and ends with its last four. */
  lemma TruncateKeepsEnds(addr: string)
    requires |addr| > 10
    ensures TruncateAddress(addr)[..6] == addr[..6]
    ensures TruncateAddress(addr)[6..9] == "..."
    ensures TruncateAddress(addr)[9..] == addr[|addr| - 4..]
  {
    var r := TruncateAddress(addr);
    assert r == addr[..6] + "..." + addr[|addr| - 4..];
    assert r[..6] == addr[..6];
    assert r[6..9] == "...";
  }

  /** Shortening twice changes nothing more: the 13-character form is its own short form. */
  lemma TruncateIdempotent(addr: string)
    ensures TruncateAddress(TruncateAddress(addr)) == TruncateAddress(addr)
  {
    if |addr| > 10 {
      var r := TruncateAddress(addr);
      TruncateKeepsEnds(addr);
      assert r == r[..6] + r[6..9] + r[9..];
      assert r[|r| - 4..] == r[9..];
    }
  }

  /**
   * The short form is shorter than the address exactly when the address has more than 13
   * characters: an 11- or 12-character text comes out longer than it went in.
   */
  lemma TruncateShortensIff(addr: string)
    ensures |TruncateAddress(addr)| < |addr| <==> |addr| > 13
  {
  }

  /** A 42-character Ethereum address (`0x` and 40 digits) is always shown in 13 characters. */
  lemma TruncateEthereumAddress(addr: string)
    requires |addr| == 42
    ensures |TruncateAddress(addr)| == 13 && TruncateAddress(addr)[..2] == addr[..2]
  {
    TruncateKeepsEnds(addr);
    assert TruncateAddress(addr)[..2] == TruncateAddress(addr)[..6][..2];
  }
}
