/** The filter that keeps links to social-media platforms out of every search. */
module Social {
  import opened Text

  /** The ten platform domains a link is tested against. */
  const SocialMediaDomains: seq<string> := [
    "instagram.com", "facebook.com", "twitter.com", "linkedin.com",
    "youtube.com", "tiktok.com", "pinterest.com", "snapchat.com",
    "whatsapp.com", "telegram.org"
  ]

  /** `domains.some(d => s.includes(d))`. */
  function SomeDomainIn(s: string, domains: seq<string>): bool
  {
    if domains == [] then false
    else Contains(s, domains[0]) || SomeDomainIn(s, domains[1..])
  }

  /** `some` holds exactly when one of the domains occurs in `s`. */
  lemma {:induction false} SomeDomainInSpec(s: string, domains: seq<string>)
    ensures SomeDomainIn(s, domains) <==> exists k, i :: 0 <= k < |domains| && OccursAt(s, domains[k], i)
  {
    if domains != [] {
      SomeDomainInSpec(s, domains[1..]);
      ContainsSpec(s, domains[0]);
      if SomeDomainIn(s, domains) {
        if Contains(s, domains[0]) {
          var i :| OccursAt(s, domains[0], i);
        } else {
          var k, i :| 0 <= k < |domains[1..]| && OccursAt(s, domains[1..][k], i);
          assert OccursAt(s, domains[k + 1], i);
        }
      }
      if exists k, i :: 0 <= k < |domains| && OccursAt(s, domains[k], i) {
        var k, i :| 0 <= k < |domains| && OccursAt(s, domains[k], i);
        if k > 0 {
          assert OccursAt(s, domains[1..][k - 1], i);
        }
      }
    }
  }

  /**
   * `isSocialMediaLink(href)`: false for an absent or empty href (both are the
   * empty string here), otherwise whether the lower-cased href contains one of
   * the ten domains.
   */
  function IsSocialMediaLink(href: string): bool
  {
    if href == "" then false
    else SomeDomainIn(Lower(href), SocialMediaDomains)
  }

  /** A link is social exactly when it is non-empty and one of the domains occurs in its lower-cased form. */
  lemma SocialMediaLinkSpec(href: string)
    ensures IsSocialMediaLink(href) <==>
      href != "" && exists k, i :: 0 <= k < |SocialMediaDomains| && OccursAt(Lower(href), SocialMediaDomains[k], i)
  {
    SomeDomainInSpec(Lower(href), SocialMediaDomains);
    assert href != "" ==> IsSocialMediaLink(href) == SomeDomainIn(Lower(href), SocialMediaDomains);
  }

  /** The test ignores letter case: an href and its lower-cased form are classified alike. */
  lemma SocialIgnoresCase(href: string)
    ensures IsSocialMediaLink(Lower(href)) == IsSocialMediaLink(href)
  {
    LowerIdempotent(href);
    assert |Lower(href)| >= |href|;
    if href != "" {
      assert Lower(href) != "";
    }
  }
}
