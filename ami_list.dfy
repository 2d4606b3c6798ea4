/**
 * The image discovery of `get_ami_list`: for every region, which image id each
 * distro tag of the `distros` table receives, and which regions are kept at all.
 * The describe_images call itself is replaced by its outcome, given per region.
 */
module AmiList {
  import opened OrderedDict

  /** One image of a describe_images response. */
  datatype Image = Image(name: string, imageId: string)

  /** What describe_images did for one region. */
  datatype Response =
    | Images(images: seq<Image>)  // the images returned, in response order
    | ClientError                 // a botocore ClientError: the region is skipped
    | Fault                       // any other exception: it propagates and ends the run

  datatype RegionQuery = RegionQuery(region: string, response: Response)

  /** region -> (distro tag -> image id), as `amis_json` and the template mapping hold it. */
  type AmiMapping = Dict<Dict<string>>

  /** Outcome of get_ami_list: the mapping, or the exception that ended it. */
  datatype Discovery = Discovered(amis: AmiMapping) | Aborted

  /** `distros`: distro tag -> fragment of the image name; its order is the report's order. */
  const Distros: Dict<string> := [
    ("alinux", "amzn"),
    ("centos6", "centos6"),
    ("centos7", "centos7"),
    ("ubuntu1404", "ubuntu-1404"),
    ("ubuntu1604", "ubuntu-1604")
  ]

  /** Python's `fragment in name` on strings. */
  predicate Contains(name: string, fragment: string)
  {
    exists i :: 0 <= i <= |name| && fragment <= name[i..]
  }

  /**
   * The id of the last image, in response order, whose name contains `fragment`:
   * there is one exactly when some image matches, and no later image matches.
   */
  function LastMatch(images: seq<Image>, fragment: string): (r: Option<string>)
    ensures r.Some? <==> exists i :: 0 <= i < |images| && Contains(images[i].name, fragment)
    ensures r.Some? ==> exists i :: 0 <= i < |images| && Contains(images[i].name, fragment) &&
                                    images[i].imageId == r.value &&
                                    forall j :: i < j < |images| ==> !Contains(images[j].name, fragment)
    decreases |images|
  {
    if |images| == 0 then None
    else
      var last := images[|images| - 1];
      if Contains(last.name, fragment) then Some(last.imageId)
      else LastMatch(images[..|images| - 1], fragment)
  }

  /** The image id a region's images give to `tag`: none for a tag the table does not hold. */
  function Classify(images: seq<Image>, table: Dict<string>, tag: string): Option<string>
  {
    match Get(table, tag)
    case None => None
    case Some(fragment) => LastMatch(images, fragment)
  }

  /**
   * A configured tag gets an image id exactly when its fragment occurs in the name of
   * some returned image, and the id is that of the last such image.
   */
  lemma ClassifyTag(images: seq<Image>, table: Dict<string>, k: nat)
    requires k < |table|
    ensures Classify(images, table, table[k].0).Some? <==>
            exists i :: 0 <= i < |images| && Contains(images[i].name, table[k].1)
    ensures Classify(images, table, table[k].0) == LastMatch(images, table[k].1)
  {
    GetSpec(table, table[k].0, table[k].1);
  }

  /**
   * The inner loops of get_ami_list for one region: every image is tried against every
   * distro, and a match assigns the image's id to the tag, so the last match wins.
   */
  method ClassifyImages(images: seq<Image>, table: Dict<string>) returns (amis: Dict<string>)
    ensures forall tag :: Get(amis, tag) == Classify(images, table, tag)
  {
    amis := [];
    for i := 0 to |images|
      invariant forall tag :: Get(amis, tag) == Classify(images[..i], table, tag)
    {
      var image := images[i];
      assert images[..i + 1][..i] == images[..i];
      for j := 0 to |table|
        invariant forall tag ::
                    Get(amis, tag) == if Get(table[..j], tag).Some? then Classify(images[..i + 1], table, tag)
                                      else Classify(images[..i], table, tag)
      {
        var (key, value) := table[j];
        assert table[..j + 1] == table[..j] + [table[j]];
        GetNone(table[..j], key);
        GetSpec(table, key, value);
        forall tag {
          GetSnoc(table[..j], table[j], tag);
        }
        if Contains(image.name, value) {
          amis := Put(amis, key, image.imageId);
        }
      }
      assert table[..|table|] == table;
    }
    assert images[..|images|] == images;
  }

  /** The tags a region's images match, with their ids, in table order. */
  function Matches(images: seq<Image>, table: Dict<string>): (r: Dict<string>)
    ensures forall tag :: Get(r, tag) == Classify(images, table, tag)
    decreases |table|
  {
    if |table| == 0 then []
    else
      var rest := Matches(images, table[1..]);
      GetNone(table[1..], table[0].0);
      GetNone(rest, table[0].0);
      match LastMatch(images, table[0].1)
      case None => rest
      case Some(id) => [(table[0].0, id)] + rest
  }

  /**
   * What a region adds to get_ami_list's result: nothing after a ClientError or when no
   * image matches any distro; otherwise its tag -> id dictionary, sorted by tag.
   */
  function RegionEntry(response: Response, table: Dict<string>): Option<Dict<string>>
  {
    match response
    case Images(images) =>
      var m := Matches(images, table);
      if |m| == 0 then None else Some(SortByKey(m))
    case ClientError => None
    case Fault => None
  }

  /**
   * A region is kept exactly when describe_images succeeded and some image name contains
   * some distro's fragment; what is kept is non-empty, strictly sorted by tag, and gives
   * every tag the id of its last matching image.
   */
  lemma RegionEntryMeaning(response: Response, table: Dict<string>)
    ensures RegionEntry(response, table).Some? <==> (response.Images? &&
      exists k, i :: 0 <= k < |table| && 0 <= i < |response.images| &&
                     Contains(response.images[i].name, table[k].1))
    ensures RegionEntry(response, table).Some? ==> (
      var m := RegionEntry(response, table).value;
      |m| > 0 && StrictlySorted(m) &&
      forall tag :: Get(m, tag) == Classify(response.images, table, tag))
  {
    if response.Images? {
      var m := Matches(response.images, table);
      MatchesEmpty(response.images, table);
      forall tag ensures Get(SortByKey(m), tag) == Classify(response.images, table, tag) {
        SortByKeyGet(m, tag);
      }
      assert |multiset(SortByKey(m))| == |multiset(m)|;
    }
  }

  lemma MatchesEmpty(images: seq<Image>, table: Dict<string>)
    ensures |Matches(images, table)| == 0 <==>
      forall k, i :: 0 <= k < |table| && 0 <= i < |images| ==> !Contains(images[i].name, table[k].1)
  {
    var m := Matches(images, table);
    if |m| > 0 {
      GetSpec(m, m[0].0, m[0].1);
      var tag := m[0].0;
      var f := Get(table, tag).value;
      GetSpec(table, tag, f);
      var k :| 0 <= k < |table| && table[k] == (tag, f);
    } else {
      forall k, i | 0 <= k < |table| && 0 <= i < |images|
        ensures !Contains(images[i].name, table[k].1)
      {
        GetNone(m, table[k].0);
        ClassifyTag(images, table, k);
      }
    }
  }

  /** Every query's region, with what the query adds to get_ami_list's result. */
  function Outcomes(queries: seq<RegionQuery>, table: Dict<string>): (r: seq<(string, Option<Dict<string>>)>)
    ensures |r| == |queries|
  {
    seq(|queries|, i requires 0 <= i < |queries| => (queries[i].region, RegionEntry(queries[i].response, table)))
  }

  /**
   * What a dictionary holds under `key` once the `Some` values of `found` have been
   * assigned into it in order: the value of the last item for `key` that has one.
   */
  function LastAssigned<V>(found: seq<(string, Option<V>)>, key: string): Option<V>
    decreases |found|
  {
    if |found| == 0 then None
    else
      var last := found[|found| - 1];
      if last.0 == key && last.1.Some? then last.1 else LastAssigned(found[..|found| - 1], key)
  }

  /**
   * A key is absent exactly when none of its items carries a value; when present, it holds
   * the value of one of its items, and no later item for it carries one.
   */
  lemma {:induction false} LastAssignedMeaning<V>(found: seq<(string, Option<V>)>, key: string)
    ensures LastAssigned(found, key).None? <==>
      forall i :: 0 <= i < |found| && found[i].0 == key ==> found[i].1.None?
    ensures LastAssigned(found, key).Some? ==>
      exists i :: 0 <= i < |found| && found[i].0 == key && found[i].1 == LastAssigned(found, key) &&
                  forall j :: i < j < |found| && found[j].0 == key ==> found[j].1.None?
    decreases |found|
  {
    if |found| > 0 {
      var n := |found| - 1;
      var init := found[..n];
      assert forall i :: 0 <= i < n ==> init[i] == found[i];
      if found[n].0 != key || found[n].1.None? {
        LastAssignedMeaning(init, key);
        if LastAssigned(init, key).Some? {
          var i :| 0 <= i < n && init[i].0 == key && init[i].1 == LastAssigned(init, key) &&
                   forall j :: i < j < n && init[j].0 == key ==> init[j].1.None?;
          assert found[i].1 == LastAssigned(found, key);
        }
      }
    }
  }

  /** When no key repeats, as in the sorted region list, every key holds its own item's value. */
  lemma {:induction false} LastAssignedDistinct<V>(found: seq<(string, Option<V>)>, key: string, i: nat)
    requires forall a, b :: 0 <= a < b < |found| ==> found[a].0 != found[b].0
    requires i < |found| && found[i].0 == key
    ensures LastAssigned(found, key) == found[i].1
    decreases |found|
  {
    var n := |found| - 1;
    var init := found[..n];
    if i < n {
      assert init[i] == found[i];
      LastAssignedDistinct(init, key, i);
    } else if found[n].1.None? {
      assert forall a :: 0 <= a < n ==> init[a].0 != key;
      LastAssignedMeaning(init, key);
    }
  }

  /**
   * The body of get_ami_list's `try` for one region whose describe_images call returned
   * `images`: classify them, drop the region when nothing matched, else sort by tag.
   */
  method DiscoverRegion(images: seq<Image>, table: Dict<string>) returns (found: Option<Dict<string>>)
    ensures found == RegionEntry(Images(images), table)
  {
    var amis := ClassifyImages(images, table);
    SortByKeyDeterminedByGet(amis, Matches(images, table));
    if |amis| == 0 {
      found := None;
    } else {
      found := Some(SortByKey(amis));
    }
  }

  /**
   * get_ami_list over the regions' describe_images outcomes: the run ends at the first
   * exception other than ClientError; otherwise every region maps to its last entry.
   */
  method GetAmiList(queries: seq<RegionQuery>, table: Dict<string>) returns (r: Discovery)
    ensures r.Aborted? <==> exists i :: 0 <= i < |queries| && queries[i].response.Fault?
    ensures r.Discovered? ==> forall region :: Get(r.amis, region) == LastAssigned(Outcomes(queries, table), region)
  {
    ghost var found := Outcomes(queries, table);
    var amisJson: AmiMapping := [];
    for i := 0 to |queries|
      invariant forall j :: 0 <= j < i ==> !queries[j].response.Fault?
      invariant forall region :: Get(amisJson, region) == LastAssigned(found[..i], region)
    {
      var query := queries[i];
      assert found[..i + 1][..i] == found[..i];
      assert found[..i + 1][i] == (query.region, RegionEntry(query.response, table));
      match query.response {
        case Fault =>
          return Aborted;
        case ClientError =>
        case Images(images) =>
          var entry := DiscoverRegion(images, table);
          if entry.Some? {
            amisJson := Put(amisJson, query.region, entry.value);
          }
      }
    }
    assert found[..|queries|] == found;
    return Discovered(amisJson);
  }
}
