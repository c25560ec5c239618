/** The VIP classification of a client's email. The remote classifier is an
    oracle whose reply is passed in; when it fails, a local string heuristic
    decides, so classification itself never fails. */
module VipCheck {
  import opened Common

  /** `sub` occurs in `s` starting at position `i`. */
  predicate OccursAt(s: string, sub: string, i: int) {
    0 <= i && i + |sub| <= |s| && s[i..i + |sub|] == sub
  }

  /** `s` ends with `suffix`. */
  predicate HasSuffix(s: string, suffix: string) {
    |suffix| <= |s| && s[|s| - |suffix|..] == suffix
  }

  lemma OccursAtShift(s: string, sub: string, i: int)
    requires |s| > 0 && i >= 0
    ensures OccursAt(s[1..], sub, i) <==> OccursAt(s, sub, i + 1)
  {
  }

  /** Case-sensitive substring search, scanning start positions left to right. */
  function Includes(s: string, sub: string): (r: bool)
    ensures r <==> exists i :: OccursAt(s, sub, i)
    decreases |s|
  {
    if |sub| <= |s| && s[..|sub|] == sub then
      assert OccursAt(s, sub, 0);
      true
    else if |s| == 0 then
      false
    else
      var found := Includes(s[1..], sub);
      assert found <==> exists i :: OccursAt(s, sub, i) by {
        if found {
          var i :| OccursAt(s[1..], sub, i);
          OccursAtShift(s, sub, i);
        } else {
          forall i | OccursAt(s, sub, i) ensures false {
            assert i != 0;
            OccursAtShift(s, sub, i - 1);
          }
        }
      }
      found
  }

  /** Suffix test, comparing characters from the end. */
  function EndsWith(s: string, suffix: string): (r: bool)
    ensures r <==> HasSuffix(s, suffix)
    decreases |suffix|
  {
    if |suffix| == 0 then
      true
    else if |s| == 0 then
      false
    else
      var rest := EndsWith(s[..|s| - 1], suffix[..|suffix| - 1]);
      assert (s[|s| - 1] == suffix[|suffix| - 1] && rest) <==> HasSuffix(s, suffix) by {
        if |suffix| <= |s| {
          var tail := s[|s| - |suffix|..];
          assert tail == s[..|s| - 1][|s| - |suffix|..] + [s[|s| - 1]];
          assert suffix == suffix[..|suffix| - 1] + [suffix[|suffix| - 1]];
        }
      }
      s[|s| - 1] == suffix[|suffix| - 1] && rest
  }

  /** What a classification reports. */
  datatype VipCheckResponse = VipCheckResponse(isVip: bool, tier: Option<string>, benefits: Option<seq<string>>)

  /** The outcome of the remote call: it failed (network error, timeout, error
      status, malformed body), or it answered with these fields. */
  datatype RemoteReply =
    | RemoteFailed
    | RemoteAnswered(isVip: Option<bool>, tier: Option<string>, benefits: Option<seq<string>>)

  /** The benefits every heuristic VIP is granted. */
  const VipBenefits: seq<string> := ["Priority Support", "Room Upgrade", "Late Checkout"]

  /** The local heuristic. `heads` is the outcome of the random draw that
      picks the tier of a VIP. */
  function MockVipCheck(email: string, heads: bool): (r: VipCheckResponse)
    ensures r.isVip <==>
      (exists i :: OccursAt(email, "vip", i)) || HasSuffix(email, "@premium.com") || HasSuffix(email, "@gold.com")
    ensures r.tier.Some? <==> r.isVip
    ensures r.tier.Some? ==> r.tier.value == "Gold" || r.tier.value == "Silver"
    ensures r.tier == Some("Gold") <==> r.isVip && heads
    ensures r.benefits.Some? <==> r.isVip
    ensures r.benefits.Some? ==> r.benefits.value == VipBenefits
  {
    var isVip := Includes(email, "vip") || EndsWith(email, "@premium.com") || EndsWith(email, "@gold.com");
    VipCheckResponse(
      isVip,
      if isVip then (if heads then Some("Gold") else Some("Silver")) else None,
      if isVip then Some(VipBenefits) else None)
  }

  /** Classifies an email: the remote answer when there is one, with a
      missing flag read as not VIP; the heuristic when the call failed. */
  function CheckVipStatus(email: string, reply: RemoteReply, heads: bool): (r: VipCheckResponse)
    ensures reply.RemoteFailed? ==> r == MockVipCheck(email, heads)
    ensures reply.RemoteAnswered? ==>
      && (r.isVip <==> reply.isVip == Some(true))
      && r.tier == reply.tier
      && r.benefits == reply.benefits
  {
    match reply
    case RemoteFailed => MockVipCheck(email, heads)
    case RemoteAnswered(flag, tier, benefits) => VipCheckResponse(flag.GetOr(false), tier, benefits)
  }

  /** An occurrence starts with the first character of the pattern. */
  lemma OccurrenceStartsWithHead(s: string, sub: string, i: int)
    requires |sub| > 0 && OccursAt(s, sub, i)
    ensures s[i] == sub[0] && sub[0] in s
  {
  }

  /** Without a lower-case 'v' an address cannot contain "vip". */
  lemma NoVipWithoutV(s: string)
    requires 'v' !in s
    ensures !exists i :: OccursAt(s, "vip", i)
  {
    forall i | OccursAt(s, "vip", i) ensures false {
      OccurrenceStartsWithHead(s, "vip", i);
    }
  }

  /** One mismatching character rules a suffix out. */
  lemma MismatchRulesOutSuffix(s: string, suffix: string, k: int)
    requires 0 <= k < |suffix| <= |s|
    requires s[|s| - |suffix| + k] != suffix[k]
    ensures !HasSuffix(s, suffix)
  {
  }

  /** "vip" anywhere in the address, or a premium domain, makes a VIP. */
  lemma MockVipExamples(heads: bool)
    ensures MockVipCheck("ann.vip@example.com", heads).isVip
    ensures MockVipCheck("bob@premium.com", heads).isVip
    ensures MockVipCheck("cy@gold.com", heads).isVip
  {
    assert OccursAt("ann.vip@example.com", "vip", 4);
    assert HasSuffix("bob@premium.com", "@premium.com");
    assert HasSuffix("cy@gold.com", "@gold.com");
  }

  /** The match is case-sensitive. */
  lemma MockIsCaseSensitive(heads: bool)
    ensures !MockVipCheck("dee@VIP.com", heads).isVip
  {
    NoVipWithoutV("dee@VIP.com");
    MismatchRulesOutSuffix("dee@VIP.com", "@gold.com", 1);
  }

  /** A premium domain counts only at the very end of the address. */
  lemma MockDomainMustEnd(heads: bool)
    ensures !MockVipCheck("ann@gold.com.au", heads).isVip
  {
    NoVipWithoutV("ann@gold.com.au");
    MismatchRulesOutSuffix("ann@gold.com.au", "@premium.com", 11);
    MismatchRulesOutSuffix("ann@gold.com.au", "@gold.com", 8);
  }
}
