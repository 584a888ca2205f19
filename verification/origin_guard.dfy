/** The request guard run before every route: it answers 403 unless the
    request names the allowed site in its `Origin` or `Referer` header. */
module OriginGuard {
  import opened Wrappers
  import opened Strings

  /** A header counts as sent when it is present and not empty: an absent
      header is `undefined` and an empty one is `''`, and both are falsy. */
  predicate Sent(h: Option<string>) {
    h.Some? && h.value != ""
  }

  /** The guard's condition for a 403, over the two request headers and the
      configured allowed URL. */
  function Forbidden(referer: Option<string>, origin: Option<string>, allowed: string): (b: bool)
    ensures !Sent(referer) && !Sent(origin) ==> b
    ensures Sent(origin) && !Contains(allowed, origin.value) ==> b
    ensures Sent(referer) && !IsPrefix(allowed, referer.value) ==> b
  {
    || (!Sent(referer) && !Sent(origin))
    || (Sent(origin) && !Contains(allowed, origin.value))
    || (Sent(referer) && !IsPrefix(allowed, referer.value))
  }

  /** A request gets through exactly when it sends at least one of the
      headers and every header it sends points at the allowed URL. */
  lemma AllowedIff(referer: Option<string>, origin: Option<string>, allowed: string)
    ensures !Forbidden(referer, origin, allowed) <==>
              && (Sent(origin) || Sent(referer))
              && (Sent(origin) ==> exists i :: OccursAt(allowed, origin.value, i))
              && (Sent(referer) ==> IsPrefix(allowed, referer.value))
  {
    if Sent(origin) {
      ContainsIff(allowed, origin.value);
    }
  }

  /** With both headers sent, the request gets through exactly when both
      checks pass. */
  lemma BothSent(referer: Option<string>, origin: Option<string>, allowed: string)
    requires Sent(referer) && Sent(origin)
    ensures !Forbidden(referer, origin, allowed) <==> Contains(allowed, origin.value) && IsPrefix(allowed, referer.value)
  {
  }

  /** An origin equal to the allowed URL, with no referer, gets through. */
  lemma ExactOriginAllowed(referer: Option<string>, allowed: string)
    requires allowed != ""
    requires !Sent(referer)
    ensures !Forbidden(referer, Some(allowed), allowed)
  {
    assert allowed[..|allowed|] == allowed;
  }

  /** A referer that is the allowed URL plus any suffix, with no origin,
      gets through. This includes a different host that merely begins with
      the allowed URL, such as the allowed URL followed by ".example". */
  lemma RefererUnderAllowed(origin: Option<string>, allowed: string, suffix: string)
    requires allowed != ""
    requires !Sent(origin)
    ensures !Forbidden(Some(allowed + suffix), origin, allowed)
  {
    assert (allowed + suffix)[..|allowed|] == allowed;
  }

  /** The origin check is containment, not equality: any non-empty piece of
      the allowed URL, a bare prefix of it included, gets through as an
      origin. */
  lemma SubstringOriginAllowed(referer: Option<string>, allowed: string, i: int, j: int)
    requires 0 <= i < j <= |allowed|
    requires !Sent(referer)
    ensures !Forbidden(referer, Some(allowed[i..j]), allowed)
  {
    SliceContained(allowed, i, j);
  }

  /** An origin longer than the allowed URL is always refused. */
  lemma LongOriginForbidden(referer: Option<string>, origin: string, allowed: string)
    requires |origin| > |allowed|
    ensures Forbidden(referer, Some(origin), allowed)
  {
    ContainsIff(allowed, origin);
  }
}
