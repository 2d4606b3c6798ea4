/**
 * The script's main flow: pick the partition's owner account and home region, discover
 * the images of every region, merge them into the CloudFormation template's mapping and
 * render the merged mapping as the text report.
 */
module GenerateAmiList {
  import opened OrderedDict
  import opened AmiList
  import opened CfnTemplate
  import opened AmisTxt

  /** The owner account whose images are searched and the region asked for the region list. */
  datatype Selection = Selected(accountId: string, region: string) | Unsupported

  /** The `--partition` dispatch: three partitions are known, anything else ends the run. */
  function SelectPartition(partition: string): (r: Selection)
    ensures r.Selected? <==> partition == "commercial" || partition == "govcloud" || partition == "china"
    ensures r.Selected? ==> |r.accountId| == 12 && (forall c :: c in r.accountId ==> '0' <= c <= '9') && '-' in r.region
  {
    if partition == "commercial" then Selected("247102896272", "us-east-1")
    else if partition == "govcloud" then Selected("124026578433", "us-gov-west-1")
    else if partition == "china" then Selected("036028979999", "cn-north-1")
    else Unsupported
  }

  /** Each partition has its own owner account and its own home region. */
  lemma SelectPartitionDistinct(p: string, q: string)
    requires SelectPartition(p).Selected? && SelectPartition(q).Selected? && p != q
    ensures SelectPartition(p).accountId != SelectPartition(q).accountId
    ensures SelectPartition(p).region != SelectPartition(q).region
  {
    var a, b := SelectPartition(p), SelectPartition(q);
    assert a.accountId[0] != b.accountId[0];
    assert a.region[0] != b.region[0] || a.region[3] != b.region[3];
  }

  /** How a run ends: `sys.exit(code)`, an exception, or both files written. */
  datatype Outcome = Exit(code: int) | Crash | Written(amisTxt: string)

  /**
   * The `__main__` block. `queries` are the regions listed from the partition's home
   * region, in order, each with the answer of its image query; the template is the parsed
   * CloudFormation document. On success the template holds the merged mapping and the
   * report is rendered from it.
   */
  method Run(partition: string, queries: seq<RegionQuery>, template: Template) returns (outcome: Outcome)
    modifies template
    ensures SelectPartition(partition).Unsupported? <==> outcome.Exit?
    ensures outcome.Exit? ==> outcome.code == 1
    ensures outcome.Written? <==>
              SelectPartition(partition).Selected? &&
              (forall i :: 0 <= i < |queries| ==> !queries[i].response.Fault?) && old(template.regionOs2Ami).Some?
    ensures outcome.Crash? <==>
              SelectPartition(partition).Selected? &&
              ((exists i :: 0 <= i < |queries| && queries[i].response.Fault?) || old(template.regionOs2Ami).None?)
    ensures !outcome.Written? ==> template.regionOs2Ami == old(template.regionOs2Ami)
    ensures outcome.Written? ==>
              && template.regionOs2Ami.Some?
              && StrictlySorted(template.regionOs2Ami.value)
              && (forall region :: Get(template.regionOs2Ami.value, region) ==
                                     if LastAssigned(Outcomes(queries, Distros), region).Some?
                                     then LastAssigned(Outcomes(queries, Distros), region)
                                     else Get(old(template.regionOs2Ami).value, region))
              && outcome.amisTxt == JoinLines(ReportLines(template.regionOs2Ami.value, Keys(Distros)))
              && forall tag :: StrictlySorted(Holders(template.regionOs2Ami.value, tag))
  {
    var selection := SelectPartition(partition);
    if selection.Unsupported? {
      return Exit(1);
    }
    var discovery := GetAmiList(queries, Distros);
    if discovery.Aborted? {
      return Crash;
    }
    var cfnAmis := template.UpdateCfnTemplate(discovery.amis);
    if cfnAmis.None? {
      return Crash;
    }
    forall tag {
      HoldersSorted(cfnAmis.value, tag);
    }
    var amisTxt := ConvertJsonToTxt(cfnAmis.value, Distros);
    return Written(amisTxt);
  }
}
