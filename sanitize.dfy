/** The three sanitizer files: each removes a fixed blacklist of property
    names, either from a list of column names (the *Props functions) or from
    the keys of records (the others). */

/** src/sanitize/sanitizePublications.js */
module SanitizePublications {
  import Seqs
  import Records

  const BlacklistedProperties: seq<string> := ["is_latest", "created_at", "updated_at"]

  predicate Allowed(prop: string) {
    prop !in BlacklistedProperties
  }

  function SanitizePublications<V>(publications: seq<map<string, V>>): (r: seq<map<string, V>>)
    ensures |r| == |publications|
    ensures forall i, k :: 0 <= i < |r| ==> (k in r[i] <==> k in publications[i] && Allowed(k))
    ensures forall i, k :: 0 <= i < |r| && k in r[i] ==> k in publications[i] && r[i][k] == publications[i][k]
  {
    Records.MapOmit(publications, BlacklistedProperties)
  }

  function SanitizePublication<V>(publication: map<string, V>): (r: map<string, V>)
    ensures "is_latest" !in r && "created_at" !in r && "updated_at" !in r
    ensures forall k :: k in r <==> k in publication && Allowed(k)
    ensures forall k :: k in r ==> r[k] == publication[k]
  {
    Records.Omit(publication, BlacklistedProperties)
  }

  function SanitizePublicationProps(props: seq<string>): (r: seq<string>)
    ensures "is_latest" !in r && "created_at" !in r && "updated_at" !in r
    ensures Seqs.IsSubsequence(r, props)
    ensures forall p :: Allowed(p) ==> multiset(r)[p] == multiset(props)[p]
  {
    Seqs.FilterIsSubsequence(props, Allowed);
    forall p ensures Allowed(p) ==> multiset(Seqs.Filter(props, Allowed))[p] == multiset(props)[p] {
      Seqs.FilterMultiset(props, Allowed, p);
    }
    Seqs.Filter(props, Allowed)
  }

  lemma SanitizePublicationPropsIdempotent(props: seq<string>)
    ensures SanitizePublicationProps(SanitizePublicationProps(props)) == SanitizePublicationProps(props)
  {
    Seqs.FilterIdempotent(props, Allowed);
  }
}

/** src/sanitize/sanitizeContributions.js */
module SanitizeContributions {
  import Seqs
  import Records

  const BlacklistedProperties: seq<string> := ["message", "signature", "created_at", "updated_at"]

  predicate Allowed(prop: string) {
    prop !in BlacklistedProperties
  }

  function SanitizeContributions<V>(contributions: seq<map<string, V>>): (r: seq<map<string, V>>)
    ensures |r| == |contributions|
    ensures forall i :: 0 <= i < |r| ==>
      "message" !in r[i] && "signature" !in r[i] && "created_at" !in r[i] && "updated_at" !in r[i]
    ensures forall i, k :: 0 <= i < |r| ==> (k in r[i] <==> k in contributions[i] && Allowed(k))
    ensures forall i, k :: 0 <= i < |r| && k in r[i] ==> k in contributions[i] && r[i][k] == contributions[i][k]
  {
    Records.MapOmit(contributions, BlacklistedProperties)
  }

  function SanitizeContributionProps(props: seq<string>): (r: seq<string>)
    ensures "message" !in r && "signature" !in r && "created_at" !in r && "updated_at" !in r
    ensures Seqs.IsSubsequence(r, props)
    ensures forall p :: Allowed(p) ==> multiset(r)[p] == multiset(props)[p]
  {
    Seqs.FilterIsSubsequence(props, Allowed);
    forall p ensures Allowed(p) ==> multiset(Seqs.Filter(props, Allowed))[p] == multiset(props)[p] {
      Seqs.FilterMultiset(props, Allowed, p);
    }
    Seqs.Filter(props, Allowed)
  }

  lemma SanitizeContributionPropsIdempotent(props: seq<string>)
    ensures SanitizeContributionProps(SanitizeContributionProps(props)) == SanitizeContributionProps(props)
  {
    Seqs.FilterIdempotent(props, Allowed);
  }
}

/** src/sanitize/sanitizeDistricts.js */
module SanitizeDistricts {
  import Seqs
  import Records

  const BlacklistedProperties: seq<string> := ["disabled", "address", "parcel_ids", "created_at", "updated_at"]

  predicate Allowed(prop: string) {
    prop !in BlacklistedProperties
  }

  function SanitizeDistricts<V>(districts: seq<map<string, V>>): (r: seq<map<string, V>>)
    ensures |r| == |districts|
    ensures forall i :: 0 <= i < |r| ==>
      "disabled" !in r[i] && "address" !in r[i] && "parcel_ids" !in r[i] &&
      "created_at" !in r[i] && "updated_at" !in r[i]
    ensures forall i, k :: 0 <= i < |r| ==> (k in r[i] <==> k in districts[i] && Allowed(k))
    ensures forall i, k :: 0 <= i < |r| && k in r[i] ==> k in districts[i] && r[i][k] == districts[i][k]
  {
    Records.MapOmit(districts, BlacklistedProperties)
  }

  function SanitizeDistrictProps(props: seq<string>): (r: seq<string>)
    ensures "disabled" !in r && "address" !in r && "parcel_ids" !in r
    ensures "created_at" !in r && "updated_at" !in r
    ensures Seqs.IsSubsequence(r, props)
    ensures forall p :: Allowed(p) ==> multiset(r)[p] == multiset(props)[p]
  {
    Seqs.FilterIsSubsequence(props, Allowed);
    forall p ensures Allowed(p) ==> multiset(Seqs.Filter(props, Allowed))[p] == multiset(props)[p] {
      Seqs.FilterMultiset(props, Allowed, p);
    }
    Seqs.Filter(props, Allowed)
  }

  lemma SanitizeDistrictPropsIdempotent(props: seq<string>)
    ensures SanitizeDistrictProps(SanitizeDistrictProps(props)) == SanitizeDistrictProps(props)
  {
    Seqs.FilterIdempotent(props, Allowed);
  }
}
