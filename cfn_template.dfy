/**
 * update_cfn_template: the discovered regions overlay the `Mappings.AWSRegionOS2AMI`
 * mapping of the template document, which is then re-sorted by region.
 */
module CfnTemplate {
  import opened StringOrder
  import opened OrderedDict
  import opened AmiList

  /**
   * The mapping after `current_amis.update(amis_to_update)` and
   * `OrderedDict(sorted(current_amis.items()))`: a region of the update takes the update's
   * entry whole, any other region keeps its entry, and regions ascend strictly.
   */
  function MergeAmis(current: AmiMapping, update: AmiMapping): (r: AmiMapping)
    ensures StrictlySorted(r)
    ensures forall region :: Get(r, region) ==
                               if Get(update, region).Some? then Get(update, region) else Get(current, region)
  {
    SortByKeyGetAll(Update(current, update));
    SortByKey(Update(current, update))
  }

  /** The merged regions are those of the template and those of the update, no more. */
  lemma MergeAmisKeys(current: AmiMapping, update: AmiMapping)
    ensures KeySet(MergeAmis(current, update)) == KeySet(current) + KeySet(update)
  {
    var r := MergeAmis(current, update);
    forall region
      ensures region in KeySet(r) <==> region in KeySet(current) + KeySet(update)
    {
      GetKeySet(r, region);
      GetKeySet(current, region);
      GetKeySet(update, region);
    }
  }

  /**
   * The merge depends on the discovered regions' entries only, not on the order in which
   * get_ami_list happened to insert them.
   */
  lemma MergeAmisIgnoresUpdateOrder(current: AmiMapping, update: AmiMapping, reordered: AmiMapping)
    requires forall region :: Get(update, region) == Get(reordered, region)
    ensures MergeAmis(current, update) == MergeAmis(current, reordered)
  {
    SortedDeterminedByGet(MergeAmis(current, update), MergeAmis(current, reordered));
  }

  /** Running the merge again with the same discoveries changes nothing. */
  lemma MergeAmisIdempotent(current: AmiMapping, update: AmiMapping)
    ensures MergeAmis(MergeAmis(current, update), update) == MergeAmis(current, update)
  {
    var once := MergeAmis(current, update);
    var twice := MergeAmis(once, update);
    SortedDeterminedByGet(twice, once);
  }

  lemma ExampleRegionsAscend()
    ensures Less("ap-south-1", "eu-west-1") && Less("eu-west-1", "us-east-1")
  {
    assert "ap-south-1"[0] == 'a' && "eu-west-1"[0] == 'e' && "us-east-1"[0] == 'u';
  }

  /** Three regions in ascending order, as a mapping. */
  lemma ThreeSorted(p: string, q: string, w: string, a: Dict<string>, e: Dict<string>, u: Dict<string>)
    requires Less(p, q) && Less(q, w)
    ensures StrictlySorted([(p, a), (q, e), (w, u)]) && DistinctKeys([(p, a), (q, e), (w, u)])
  {
    LessTransitive(p, q, w);
    SortedDistinct([(p, a), (q, e), (w, u)]);
  }

  /** Looking a region up in the merge of the worked example's shape. */
  lemma MergeThreeGet(p: string, q: string, w: string, a: Dict<string>, e: Dict<string>, u: Dict<string>, region: string)
    requires p != q && q != w && p != w
    ensures Get(MergeAmis([(p, a)], [(w, u), (q, e)]), region) == Get([(p, a), (q, e), (w, u)], region)
  {
    var current: AmiMapping := [(p, a)];
    var update: AmiMapping := [(w, u), (q, e)];
    var expected := [(p, a), (q, e), (w, u)];
    var none: seq<(string, Dict<string>)> := [];
    assert current[1..] == none;
    assert update[1..] == [(q, e)] && update[1..][1..] == none;
    assert expected[1..] == [(q, e), (w, u)] && expected[1..][1..] == [(w, u)] && expected[1..][1..][1..] == none;
    assert Get(current, region) == if region == p then Some(a) else None;
    assert Get(update[1..], region) == if region == q then Some(e) else None;
    assert Get(update, region) == if region == w then Some(u) else if region == q then Some(e) else None;
    assert Get(expected[1..][1..], region) == if region == w then Some(u) else None;
    assert Get(expected[1..], region) == if region == q then Some(e) else if region == w then Some(u) else None;
    assert Get(expected, region) ==
           if region == p then Some(a) else if region == q then Some(e) else if region == w then Some(u) else None;
  }

  /**
   * A worked example, for any three regions in ascending order: the
   * template holds the lowest, the update brings the highest and then the middle one;
   * the result lists the three regions in ascending order, each with its own entry.
   */
  lemma MergeThree(p: string, q: string, w: string, a: Dict<string>, e: Dict<string>, u: Dict<string>)
    requires Less(p, q) && Less(q, w) && q != w
    ensures MergeAmis([(p, a)], [(w, u), (q, e)]) == [(p, a), (q, e), (w, u)]
  {
    ThreeSorted(p, q, w, a, e, u);
    LessAsymmetric(p, q);
    LessAsymmetric(q, w);
    LessTransitive(p, q, w);
    LessAsymmetric(p, w);
    var r := MergeAmis([(p, a)], [(w, u), (q, e)]);
    var expected: AmiMapping := [(p, a), (q, e), (w, u)];
    forall region
      ensures Get(r, region) == Get(expected, region)
    {
      MergeThreeGet(p, q, w, a, e, u, region);
    }
    SortedDeterminedByGet(r, expected);
  }

  /**
   * A worked example: us-east-1 and eu-west-1 discovered, ap-south-1
   * already in the template; the merged mapping is ap-south-1, eu-west-1, us-east-1.
   */
  lemma MergeAmisExample(a: Dict<string>, e: Dict<string>, u: Dict<string>)
    ensures MergeAmis([("ap-south-1", a)], [("us-east-1", u), ("eu-west-1", e)])
         == [("ap-south-1", a), ("eu-west-1", e), ("us-east-1", u)]
  {
    ExampleRegionsAscend();
    LessAsymmetric("eu-west-1", "us-east-1");
    MergeThree("ap-south-1", "eu-west-1", "us-east-1", a, e, u);
  }

  /** The parsed template document, reduced to its `Mappings.AWSRegionOS2AMI` field. */
  class Template {
    /** The region mapping; None when the document has no `Mappings` or no `AWSRegionOS2AMI` in it. */
    var regionOs2Ami: Option<AmiMapping>

    constructor (mapping: Option<AmiMapping>)
      ensures regionOs2Ami == mapping
    {
      regionOs2Ami := mapping;
    }

    /**
     * update_cfn_template: merge the discovered regions into the mapping, store the sorted
     * mapping back and return it. Without the mapping Python raises on `None`, and the
     * document is left as it was.
     */
    method UpdateCfnTemplate(amisToUpdate: AmiMapping) returns (ordered: Option<AmiMapping>)
      modifies this
      ensures old(regionOs2Ami).None? ==> ordered.None? && regionOs2Ami == old(regionOs2Ami)
      ensures old(regionOs2Ami).Some? ==>
                ordered == Some(MergeAmis(old(regionOs2Ami).value, amisToUpdate)) && regionOs2Ami == ordered
    {
      match regionOs2Ami {
        case None =>
          ordered := None;
        case Some(currentAmis) =>
          var updated := Update(currentAmis, amisToUpdate);
          var sorted := SortByKey(updated);
          regionOs2Ami := Some(sorted);
          ordered := Some(sorted);
      }
    }
  }
}
