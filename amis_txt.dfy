/**
 * convert_json_to_txt: the text report of the region mapping, one `# tag` section per
 * distro in table order, listing `region: id` for every region that holds the tag.
 * The report is specified line by line, and a reader for the format shows that the
 * text says exactly that and nothing else.
 */
module AmisTxt {
  import opened OrderedDict
  import opened AmiList

  function Header(tag: string): string
  {
    "# " + tag
  }

  function EntryLine(region: string, imageId: string): string
  {
    region + ": " + imageId
  }

  /** The regions holding `tag`, with the image id each holds for it, in the mapping's order. */
  function Holders(amis: seq<(string, Dict<string>)>, tag: string): (r: seq<(string, string)>)
    ensures forall region, id :: (region, id) in r <==>
              exists i :: 0 <= i < |amis| && amis[i].0 == region && Get(amis[i].1, tag) == Some(id)
    decreases |amis|
  {
    if |amis| == 0 then []
    else
      var rest := Holders(amis[1..], tag);
      assert forall i :: 0 < i < |amis| ==> amis[i] == amis[1..][i - 1];
      match Get(amis[0].1, tag)
      case None => rest
      case Some(id) => [(amis[0].0, id)] + rest
  }

  lemma {:induction false} HoldersAppend(a: seq<(string, Dict<string>)>, b: seq<(string, Dict<string>)>, tag: string)
    ensures Holders(a + b, tag) == Holders(a, tag) + Holders(b, tag)
    decreases |a|
  {
    if |a| > 0 {
      assert (a + b)[0] == a[0] && (a + b)[1..] == a[1..] + b;
      HoldersAppend(a[1..], b, tag);
    } else {
      assert a + b == b;
    }
  }

  /** Over a mapping sorted by region, the holders of a tag come in ascending region order. */
  lemma {:induction false} HoldersSorted(amis: seq<(string, Dict<string>)>, tag: string)
    requires StrictlySorted(amis)
    ensures StrictlySorted(Holders(amis, tag))
    decreases |amis|
  {
    if |amis| > 0 {
      var rest := Holders(amis[1..], tag);
      HoldersSorted(amis[1..], tag);
      forall j | 0 <= j < |rest| ensures StringOrder.Less(amis[0].0, rest[j].0) {
        assert (rest[j].0, rest[j].1) in rest;
        var i :| 0 <= i < |amis[1..]| && amis[1..][i].0 == rest[j].0 && Get(amis[1..][i].1, tag) == Some(rest[j].1);
        assert amis[1..][i] == amis[i + 1];
      }
    }
  }

  function EntryLines(holders: seq<(string, string)>): (lines: seq<string>)
    ensures |lines| == |holders|
  {
    seq(|holders|, i requires 0 <= i < |holders| => EntryLine(holders[i].0, holders[i].1))
  }

  /** The report's lines: for every tag its header, then one line per region holding it. */
  function ReportLines(amis: AmiMapping, tags: seq<string>): seq<string>
    decreases |tags|
  {
    if |tags| == 0 then []
    else [Header(tags[0])] + EntryLines(Holders(amis, tags[0])) + ReportLines(amis, tags[1..])
  }

  lemma {:induction false} ReportLinesSnoc(amis: AmiMapping, tags: seq<string>, tag: string)
    ensures ReportLines(amis, tags + [tag]) ==
            ReportLines(amis, tags) + [Header(tag)] + EntryLines(Holders(amis, tag))
    decreases |tags|
  {
    if |tags| > 0 {
      assert (tags + [tag])[1..] == tags[1..] + [tag];
      ReportLinesSnoc(amis, tags[1..], tag);
    } else {
      assert ReportLines(amis, []) == [];
    }
  }

  /** Every line followed by a newline. */
  function JoinLines(lines: seq<string>): string
    decreases |lines|
  {
    if |lines| == 0 then "" else lines[0] + "\n" + JoinLines(lines[1..])
  }

  lemma {:induction false} JoinLinesAppend(a: seq<string>, b: seq<string>)
    ensures JoinLines(a + b) == JoinLines(a) + JoinLines(b)
    decreases |a|
  {
    if |a| > 0 {
      assert (a + b)[1..] == a[1..] + b;
      JoinLinesAppend(a[1..], b);
    } else {
      assert a + b == b;
    }
  }

  /** The report's lines once the first `k` tags are done and `j` regions of tag `k` are scanned. */
  ghost function PartialLines(amis: AmiMapping, tags: seq<string>, k: nat, j: nat): seq<string>
    requires k < |tags| && j <= |amis|
  {
    ReportLines(amis, tags[..k]) + [Header(tags[k])] + EntryLines(Holders(amis[..j], tags[k]))
  }

  lemma PartialStart(amis: AmiMapping, tags: seq<string>, k: nat)
    requires k < |tags|
    ensures JoinLines(PartialLines(amis, tags, k, 0)) == JoinLines(ReportLines(amis, tags[..k])) + "# " + tags[k] + "\n"
  {
    assert amis[..0] == [];
    assert PartialLines(amis, tags, k, 0) == ReportLines(amis, tags[..k]) + [Header(tags[k])];
    JoinLinesSnoc(ReportLines(amis, tags[..k]), Header(tags[k]));
  }

  lemma HoldersSnoc(a: seq<(string, Dict<string>)>, x: (string, Dict<string>), tag: string)
    ensures Holders(a + [x], tag) == Holders(a, tag) + match Get(x.1, tag)
                                                       case Some(id) => [(x.0, id)]
                                                       case None => []
  {
    HoldersAppend(a, [x], tag);
    var one: seq<(string, Dict<string>)> := [x];
    assert one[1..] == [];
  }

  lemma JoinLinesSnoc(lines: seq<string>, line: string)
    ensures JoinLines(lines + [line]) == JoinLines(lines) + line + "\n"
  {
    JoinLinesAppend(lines, [line]);
    var one := [line];
    assert one[1..] == [];
  }

  lemma EntryLinesSnoc(holders: seq<(string, string)>, h: (string, string))
    ensures EntryLines(holders + [h]) == EntryLines(holders) + [EntryLine(h.0, h.1)]
  {
  }

  /** Scanning a region that holds the tag adds its line. */
  lemma PartialStepHolds(amis: AmiMapping, tags: seq<string>, k: nat, j: nat, id: string)
    requires k < |tags| && j < |amis| && Get(amis[j].1, tags[k]) == Some(id)
    ensures PartialLines(amis, tags, k, j + 1) == PartialLines(amis, tags, k, j) + [EntryLine(amis[j].0, id)]
  {
    var tag := tags[k];
    var hs := Holders(amis[..j], tag);
    assert amis[..j + 1] == amis[..j] + [amis[j]];
    HoldersSnoc(amis[..j], amis[j], tag);
    EntryLinesSnoc(hs, (amis[j].0, id));
  }

  /** Scanning a region without the tag adds nothing. */
  lemma PartialStepSkips(amis: AmiMapping, tags: seq<string>, k: nat, j: nat)
    requires k < |tags| && j < |amis| && Get(amis[j].1, tags[k]).None?
    ensures PartialLines(amis, tags, k, j + 1) == PartialLines(amis, tags, k, j)
  {
    assert amis[..j + 1] == amis[..j] + [amis[j]];
    HoldersSnoc(amis[..j], amis[j], tags[k]);
    assert Holders(amis[..j + 1], tags[k]) == Holders(amis[..j], tags[k]);
  }

  lemma PartialEnd(amis: AmiMapping, tags: seq<string>, k: nat)
    requires k < |tags|
    ensures PartialLines(amis, tags, k, |amis|) == ReportLines(amis, tags[..k + 1])
  {
    assert amis[..|amis|] == amis;
    ReportLinesPrefix(amis, tags, k);
  }

  lemma ReportLinesPrefix(amis: AmiMapping, tags: seq<string>, k: nat)
    requires k < |tags|
    ensures ReportLines(amis, tags[..k + 1]) ==
            ReportLines(amis, tags[..k]) + [Header(tags[k])] + EntryLines(Holders(amis, tags[k]))
  {
    var done := tags[..k];
    assert tags[..k + 1] == done + [tags[k]];
    ReportLinesSnoc(amis, done, tags[k]);
  }

  /**
   * convert_json_to_txt: for every distro of the table, its header, then the line of
   * every region of the mapping that holds the distro's tag.
   */
  method ConvertJsonToTxt(amisJson: AmiMapping, table: Dict<string>) returns (amisTxt: string)
    ensures amisTxt == JoinLines(ReportLines(amisJson, Keys(table)))
  {
    ghost var tags := Keys(table);
    amisTxt := "";
    for k := 0 to |table|
      invariant amisTxt == JoinLines(ReportLines(amisJson, tags[..k]))
    {
      var tag := table[k].0;
      PartialStart(amisJson, tags, k);
      amisTxt := amisTxt + "# " + tag + "\n";
      for j := 0 to |amisJson|
        invariant amisTxt == JoinLines(PartialLines(amisJson, tags, k, j))
      {
        var (region, amis) := amisJson[j];
        match Get(amis, tag) {
          case Some(id) =>
            PartialStepHolds(amisJson, tags, k, j, id);
            JoinLinesSnoc(PartialLines(amisJson, tags, k, j), EntryLine(region, id));
            amisTxt := amisTxt + EntryLine(region, id) + "\n";
          case None =>
            PartialStepSkips(amisJson, tags, k, j);
        }
      }
      PartialEnd(amisJson, tags, k);
    }
    assert tags[..|table|] == tags;
  }

  // ---------------------------------------------------------------------------
  // Reading a report back.

  /** One section of the report: a distro tag and its (region, image id) lines. */
  datatype Section = Section(tag: string, entries: seq<(string, string)>)

  /** The sections the report of `amis` should consist of. */
  function Sections(amis: AmiMapping, tags: seq<string>): (r: seq<Section>)
    ensures |r| == |tags|
  {
    seq(|tags|, k requires 0 <= k < |tags| => Section(tags[k], Holders(amis, tags[k])))
  }

  /** The index of the first `c` in `s`, or `|s|` when there is none. */
  function IndexOf(s: string, c: char): (n: nat)
    ensures n <= |s| && (n < |s| ==> s[n] == c)
    ensures forall i :: 0 <= i < n ==> s[i] != c
    decreases |s|
  {
    if |s| == 0 || s[0] == c then 0 else 1 + IndexOf(s[1..], c)
  }

  lemma {:induction false} IndexOfAfter(l: string, c: char, rest: string)
    requires c !in l
    ensures IndexOf(l + [c] + rest, c) == |l|
    decreases |l|
  {
    if |l| > 0 {
      assert (l + [c] + rest)[1..] == l[1..] + [c] + rest;
      IndexOfAfter(l[1..], c, rest);
    }
  }

  /** The text cut at each newline; None when the last line lacks its newline. */
  function SplitLines(s: string): Option<seq<string>>
    decreases |s|
  {
    if |s| == 0 then Some([])
    else
      var n := IndexOf(s, '\n');
      if n == |s| then None
      else match SplitLines(s[n + 1..])
           case None => None
           case Some(rest) => Some([s[..n]] + rest)
  }

  predicate IsHeader(line: string)
  {
    "# " <= line
  }

  /** `region: id`, cut at the first colon. */
  function ParseEntry(line: string): Option<(string, string)>
  {
    var c := IndexOf(line, ':');
    if c + 1 < |line| && line[c + 1] == ' ' then Some((line[..c], line[c + 2..])) else None
  }

  function ParseEntries(lines: seq<string>): Option<seq<(string, string)>>
    decreases |lines|
  {
    if |lines| == 0 then Some([])
    else match (ParseEntry(lines[0]), ParseEntries(lines[1..]))
         case (Some(e), Some(es)) => Some([e] + es)
         case _ => None
  }

  /** The number of lines before the next header. */
  function EntryCount(lines: seq<string>): (n: nat)
    ensures n <= |lines|
    decreases |lines|
  {
    if |lines| == 0 || IsHeader(lines[0]) then 0 else 1 + EntryCount(lines[1..])
  }

  function ParseSections(lines: seq<string>): Option<seq<Section>>
    decreases |lines|
  {
    if |lines| == 0 then Some([])
    else if !IsHeader(lines[0]) then None
    else
      var n := EntryCount(lines[1..]);
      match (ParseEntries(lines[1..n + 1]), ParseSections(lines[n + 1..]))
      case (Some(entries), Some(rest)) => Some([Section(lines[0][2..], entries)] + rest)
      case _ => None
  }

  /** Reads a report back into its sections. */
  function ParseReport(text: string): Option<seq<Section>>
  {
    match SplitLines(text)
    case None => None
    case Some(lines) => ParseSections(lines)
  }

  /**
   * The names a report can be read back from: no tag, region or image id holds a
   * newline, and no region holds a colon or a `#`.
   */
  ghost predicate Printable(amis: AmiMapping, tags: seq<string>)
  {
    && (forall k :: 0 <= k < |tags| ==> '\n' !in tags[k])
    && (forall i :: 0 <= i < |amis| ==> '\n' !in amis[i].0 && ':' !in amis[i].0 && '#' !in amis[i].0)
    && (forall i, p :: 0 <= i < |amis| && p in amis[i].1 ==> '\n' !in p.1)
  }

  lemma {:induction false} SplitJoin(lines: seq<string>)
    requires forall k :: 0 <= k < |lines| ==> '\n' !in lines[k]
    ensures SplitLines(JoinLines(lines)) == Some(lines)
    decreases |lines|
  {
    if |lines| > 0 {
      SplitLinesCons(lines[0], JoinLines(lines[1..]));
      SplitJoin(lines[1..]);
      assert lines == [lines[0]] + lines[1..];
    }
  }

  /** A text that starts with a whole line splits into that line and the rest's lines. */
  lemma SplitLinesCons(l: string, rest: string)
    requires '\n' !in l
    ensures SplitLines(l + "\n" + rest) ==
            if SplitLines(rest).Some? then Some([l] + SplitLines(rest).value) else None
  {
    var s := l + "\n" + rest;
    IndexOfAfter(l, '\n', rest);
    assert s[..|l|] == l;
    assert s[|l| + 1..] == rest;
  }

  lemma ParseEntryLine(region: string, imageId: string)
    requires ':' !in region && '#' !in region
    ensures ParseEntry(EntryLine(region, imageId)) == Some((region, imageId))
    ensures !IsHeader(EntryLine(region, imageId))
  {
    var line := EntryLine(region, imageId);
    assert line == region + [':'] + (" " + imageId);
    IndexOfAfter(region, ':', " " + imageId);
    var c := IndexOf(line, ':');
    assert line[..c] == region && line[c + 2..] == imageId;
    assert line[0] == if |region| > 0 then region[0] else ':';
  }

  /** The region lines of a section read back to its holders, and none of them is a header. */
  lemma {:induction false} ParseEntryLines(holders: seq<(string, string)>, rest: seq<string>)
    requires forall i :: 0 <= i < |holders| ==> ':' !in holders[i].0 && '#' !in holders[i].0
    requires |rest| == 0 || IsHeader(rest[0])
    ensures ParseEntries(EntryLines(holders)) == Some(holders)
    ensures EntryCount(EntryLines(holders) + rest) == |holders|
    decreases |holders|
  {
    if |holders| > 0 {
      ParseEntryLine(holders[0].0, holders[0].1);
      ParseEntryLines(holders[1..], rest);
      assert EntryLines(holders)[1..] == EntryLines(holders[1..]);
      assert (EntryLines(holders) + rest)[1..] == EntryLines(holders[1..]) + rest;
      assert holders == [holders[0]] + holders[1..];
    } else {
      assert EntryLines(holders) + rest == rest;
    }
  }

  lemma HoldersPrintable(amis: AmiMapping, tags: seq<string>, tag: string)
    requires Printable(amis, tags)
    ensures forall i :: 0 <= i < |Holders(amis, tag)| ==>
              var h := Holders(amis, tag)[i];
              ':' !in h.0 && '#' !in h.0 && '\n' !in h.0 && '\n' !in h.1
  {
    var hs := Holders(amis, tag);
    forall i | 0 <= i < |hs|
      ensures ':' !in hs[i].0 && '#' !in hs[i].0 && '\n' !in hs[i].0 && '\n' !in hs[i].1
    {
      assert (hs[i].0, hs[i].1) in hs;
      var j :| 0 <= j < |amis| && amis[j].0 == hs[i].0 && Get(amis[j].1, tag) == Some(hs[i].1);
      GetSpec(amis[j].1, tag, hs[i].1);
    }
  }

  /** A header, its region lines, and the following sections read back section by section. */
  lemma ParseSectionsCons(header: string, body: seq<string>, rest: seq<string>, entries: seq<(string, string)>, sections: seq<Section>)
    requires IsHeader(header) && ParseEntries(body) == Some(entries)
    requires EntryCount(body + rest) == |body| && ParseSections(rest) == Some(sections)
    ensures ParseSections([header] + body + rest) == Some([Section(header[2..], entries)] + sections)
  {
    var lines := [header] + body + rest;
    assert lines[1..] == body + rest;
    assert lines[1..|body| + 1] == body;
    assert lines[|body| + 1..] == rest;
  }

  lemma {:induction false} ParseReportLines(amis: AmiMapping, tags: seq<string>)
    requires Printable(amis, tags)
    ensures ParseSections(ReportLines(amis, tags)) == Some(Sections(amis, tags))
    decreases |tags|
  {
    if |tags| > 0 {
      var hs := Holders(amis, tags[0]);
      var rest := ReportLines(amis, tags[1..]);
      assert Printable(amis, tags[1..]);
      ParseReportLines(amis, tags[1..]);
      HoldersPrintable(amis, tags, tags[0]);
      ReportLinesHead(amis, tags[1..]);
      ParseEntryLines(hs, rest);
      assert Header(tags[0])[2..] == tags[0];
      ParseSectionsCons(Header(tags[0]), EntryLines(hs), rest, hs, Sections(amis, tags[1..]));
      SectionsCons(amis, tags);
    }
  }

  lemma ReportLinesHead(amis: AmiMapping, tags: seq<string>)
    ensures |ReportLines(amis, tags)| == 0 || IsHeader(ReportLines(amis, tags)[0])
  {
    if |tags| > 0 {
      assert ReportLines(amis, tags)[0] == Header(tags[0]);
    }
  }

  lemma SectionsCons(amis: AmiMapping, tags: seq<string>)
    requires |tags| > 0
    ensures Sections(amis, tags) == [Section(tags[0], Holders(amis, tags[0]))] + Sections(amis, tags[1..])
  {
    var whole, tail := Sections(amis, tags), Sections(amis, tags[1..]);
    var cons := [Section(tags[0], Holders(amis, tags[0]))] + tail;
    forall i | 0 <= i < |whole|
      ensures whole[i] == cons[i]
    {
      if i > 0 {
        assert tail[i - 1] == Section(tags[1..][i - 1], Holders(amis, tags[1..][i - 1]));
      }
    }
  }

  lemma ReportLinesPrintable(amis: AmiMapping, tags: seq<string>)
    requires Printable(amis, tags)
    ensures forall k :: 0 <= k < |ReportLines(amis, tags)| ==> '\n' !in ReportLines(amis, tags)[k]
    decreases |tags|
  {
    if |tags| > 0 {
      assert Printable(amis, tags[1..]);
      ReportLinesPrintable(amis, tags[1..]);
      HoldersPrintable(amis, tags, tags[0]);
    }
  }

  /**
   * The report reads back as exactly one section per tag, in the table's order (also for
   * a tag no region holds), each listing exactly the regions holding the tag with their
   * image ids, in the mapping's order, every line ended by a newline.
   */
  lemma ReportRoundTrip(amis: AmiMapping, tags: seq<string>)
    requires Printable(amis, tags)
    ensures ParseReport(JoinLines(ReportLines(amis, tags))) == Some(Sections(amis, tags))
  {
    ReportLinesPrintable(amis, tags);
    SplitJoin(ReportLines(amis, tags));
    ParseReportLines(amis, tags);
  }
}
