/** The seed list bundled into the front end (frontend/lib/seed.ts): lookup
    of a product by slug and the list of all slugs. The compiled JSON the list
    is read from is a parameter. */
module SeedList {
  import opened Wrappers

  /** An entry of the bundled seed list. */
  datatype SeedProduct = SeedProduct(
    name: string, slug: string, description: string, supplier: Option<string>,
    price: real, image: Option<string>)

  /** `getSeedProduct`: the first entry with the slug, or none. */
  function GetSeedProduct(seeds: seq<SeedProduct>, slug: string): (r: Option<SeedProduct>)
    ensures r.None? <==> forall i :: 0 <= i < |seeds| ==> seeds[i].slug != slug
    ensures r.Some? ==> exists i :: (0 <= i < |seeds| && seeds[i] == r.value && seeds[i].slug == slug
      && forall j :: 0 <= j < i ==> seeds[j].slug != slug)
  {
    if seeds == [] then None
    else if seeds[0].slug == slug then Some(seeds[0])
    else
      var r := GetSeedProduct(seeds[1..], slug);
      assert r.Some? ==> exists i :: (1 <= i < |seeds| && seeds[i] == r.value && seeds[i].slug == slug
        && forall j :: 0 <= j < i ==> seeds[j].slug != slug);
      r
  }

  /** `getAllSeedSlugs`: the slugs, one per entry, in list order. */
  function AllSeedSlugs(seeds: seq<SeedProduct>): (r: seq<string>)
    ensures |r| == |seeds|
    ensures forall i :: 0 <= i < |seeds| ==> r[i] == seeds[i].slug
  {
    if seeds == [] then [] else [seeds[0].slug] + AllSeedSlugs(seeds[1..])
  }

  /** A slug leads to an entry exactly when it is listed. */
  lemma ListedIffFound(seeds: seq<SeedProduct>, slug: string)
    ensures GetSeedProduct(seeds, slug).Some? <==> slug in AllSeedSlugs(seeds)
  {
    var all := AllSeedSlugs(seeds);
    if slug in all {
      var k :| 0 <= k < |all| && all[k] == slug;
      assert seeds[k].slug == slug;
    }
  }

  /** With unique slugs, the k-th listed slug leads back to the k-th entry. */
  lemma FindsOwnEntry(seeds: seq<SeedProduct>, k: nat)
    requires forall i, j :: 0 <= i < j < |seeds| ==> seeds[i].slug != seeds[j].slug
    requires k < |seeds|
    ensures GetSeedProduct(seeds, AllSeedSlugs(seeds)[k]) == Some(seeds[k])
  {
  }
}
