/**
 * Anonymisation of the client address stored with every click:
 * `ip.replace(/\.\d+$/, '.0')`.  The regular expression has neither the `g`
 * nor the `m` flag, so `$` is the end of the string and at most one match is
 * replaced; a match is a `.` followed by one or more ASCII digits that run to
 * the end of the address.
 */
module IpAddress {

  /** JavaScript's `\d`: the ASCII digits only. */
  predicate IsDigit(c: char) {
    '0' <= c <= '9'
  }

  /** The number of digits the address ends with. */
  function TrailingDigits(s: string): (n: nat)
    ensures n <= |s|
    ensures forall i :: |s| - n <= i < |s| ==> IsDigit(s[i])
    ensures n < |s| ==> !IsDigit(s[|s| - n - 1])
  {
    if |s| > 0 && IsDigit(s[|s| - 1]) then TrailingDigits(s[..|s| - 1]) + 1 else 0
  }

  /** The regular expression `\.\d+$` matches `ip` starting at index `i`. */
  predicate SuffixMatchAt(ip: string, i: int) {
    0 <= i < |ip| - 1 && ip[i] == '.' && forall j :: i < j < |ip| ==> IsDigit(ip[j])
  }

  /** Replaces a final `.<digits>` by `.0`; any other address is returned as it is. */
  function AnonymizeIp(ip: string): (r: string)
    ensures r == ip || (2 <= |r| <= |ip| && r[|r| - 2..] == ".0" && r[..|r| - 2] == ip[..|r| - 2] && ip[|r| - 2] == '.')
  {
    var n := TrailingDigits(ip);
    if 0 < n < |ip| && ip[|ip| - n - 1] == '.' then ip[..|ip| - n - 1] + ".0" else ip
  }

  /** The address recorded for a request without `req.ip` (rest-api.ts line 145). */
  const UnknownIp: string := "0.0.0.0"

  /**
   * An address that anonymisation leaves as it is: one ending in `.0`, and also every address with
   * no final `.<digits>`, such as an IPv6 address, which is thus kept whole.
   */
  predicate KeptByAnonymizeIp(ip: string) {
    AnonymizeIp(ip) == ip
  }

  /** When the expression matches at `i`, everything before the dot is kept and the digits become `0`. */
  lemma AnonymizeIpMatch(ip: string, i: int)
    requires SuffixMatchAt(ip, i)
    ensures AnonymizeIp(ip) == ip[..i] + ".0"
  {
    assert TrailingDigits(ip) == |ip| - i - 1;
  }

  /** When the expression matches nowhere (`::1`, `localhost`, `10.0.0.`), the address comes back unchanged. */
  lemma AnonymizeIpNoMatch(ip: string)
    requires forall i :: !SuffixMatchAt(ip, i)
    ensures AnonymizeIp(ip) == ip
  {
    var n := TrailingDigits(ip);
    assert !SuffixMatchAt(ip, |ip| - n - 1);
  }

  /** Anonymising twice is anonymising once, so every stored address is a fixed point. */
  lemma AnonymizeIpIdempotent(ip: string)
    ensures KeptByAnonymizeIp(AnonymizeIp(ip))
  {
    var r := AnonymizeIp(ip);
    if r != ip {
      var p := r[..|r| - 2];
      assert r == p + ".0";
      assert SuffixMatchAt(r, |p|);
      AnonymizeIpMatch(r, |p|);
      assert r[..|p|] == p;
    }
  }

  /** The documented cases: an IPv4 address, its IPv4-mapped form, two IPv6 addresses (kept whole) and the fallback address. */
  lemma AnonymizeIpExamples()
    ensures AnonymizeIp("203.0.113.42") == "203.0.113.0"
    ensures AnonymizeIp("::ffff:203.0.113.42") == "::ffff:203.0.113.0"
    ensures AnonymizeIp("::1") == "::1"
    ensures AnonymizeIp("2001:db8::42") == "2001:db8::42"
    ensures KeptByAnonymizeIp(UnknownIp)
  {
    AnonymizeIpMatch("203.0.113.42", 9);
    assert "203.0.113.42"[..9] == "203.0.113";
    AnonymizeIpMatch("::ffff:203.0.113.42", 16);
    assert "::ffff:203.0.113.42"[..16] == "::ffff:203.0.113";
    assert forall i :: !SuffixMatchAt("::1", i);
    AnonymizeIpNoMatch("::1");
    assert forall i :: !SuffixMatchAt("2001:db8::42", i);
    AnonymizeIpNoMatch("2001:db8::42");
    AnonymizeIpMatch(UnknownIp, 5);
    assert UnknownIp[..5] == "0.0.0";
  }
}
