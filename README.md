# generate-ami-list, modelled in Dafny

`util/generate-ami-list.py` is the release helper of AWS ParallelCluster. It finds the
public ParallelCluster AMIs of one release in every region of a partition. It merges
their ids into the `Mappings.AWSRegionOS2AMI` table of the CloudFormation template. It
then writes `amis.txt`, a report with one `# <distro>` section per distro.

The model covers four parts of the script:

- `distros`: the ordered table that maps each distro tag to the fragment an image name
  must contain.
- `get_ami_list`: for each region, every image is tried against every distro and the
  last match wins. A region is skipped on a `ClientError`, dropped when nothing
  matched, and otherwise kept as a tag-sorted dictionary.
- `update_cfn_template`: `dict.update` followed by `OrderedDict(sorted(...))`.
- `convert_json_to_txt`: the report.

The partition dispatch and the `__main__` flow are modelled as well.

Modules:

- `StringOrder` (`string_order.dfy`): Python's `<` on `str`. It is proved to be a strict
  total order, which is what `sorted` relies on.
- `OrderedDict` (`ordered_dict.dfy`): a `dict`/`OrderedDict` with string keys, seen as
  its items in iteration order with no key repeated. It provides `d.get(k)`,
  `d[k] = v`, `d.update(u)` and `OrderedDict(sorted(d.items()))` (an insertion sort),
  each with its contract.
- `AmiList` (`ami_list.dfy`): the `distros` table, the per-region classification (a
  method with the source's two nested loops) and `get_ami_list` (a method with the
  region loop). Each describe_images call is replaced by its outcome, which is given
  per region: the images, a `ClientError`, or any other exception.
- `CfnTemplate` (`cfn_template.dfy`): the merge as a function, and the template
  document as a class whose `update_cfn_template` method rewrites its mapping field.
- `AmisTxt` (`amis_txt.dfy`): `convert_json_to_txt` as a method with the source's
  loops, specified line by line. A reader for the report format shows that the text
  reads back as exactly one section per distro, in table order, each listing the
  regions that hold it.
- `GenerateAmiList` (`generate_ami_list.dfy`): the `--partition` dispatch and the
  `__main__` flow.

The comment at `util/generate-ami-list.py:61` says the loop skips the regions on which
the account is not authorized (cn-north-1). The handler at `util/generate-ami-list.py:60`
catches every botocore `ClientError`, whatever its cause, and the model follows the
handler: any `ClientError` skips the region.

## Model

| member | source | states |
|---|---|---|
| StringOrder.LessIrreflexive | util/generate-ami-list.py:91 | no region name sorts before itself under Python's string `<` |
| StringOrder.LessTransitive | util/generate-ami-list.py:91 | the string order used by `sorted` is transitive |
| StringOrder.LessTotal | util/generate-ami-list.py:91 | any two distinct strings are ordered one way or the other, so `sorted` has a single answer |
| StringOrder.LessAsymmetric | util/generate-ami-list.py:91 | two strings are never each below the other, and a string below another differs from it |
| OrderedDict.GetNone | util/generate-ami-list.py:72 | `key in amis` is false exactly when no item has that key |
| OrderedDict.GetSpec | util/generate-ami-list.py:72-73 | in a dictionary, `amis[key]` is `v` exactly when `(key, v)` is one of its items |
| OrderedDict.GetKeySet | util/generate-ami-list.py:72 | a lookup succeeds exactly for the dictionary's keys |
| OrderedDict.SameGetSameItems | util/generate-ami-list.py:89 | two dictionaries that answer every lookup alike hold the same items |
| OrderedDict.GetSnoc | util/generate-ami-list.py:52-54 | looking up after one more item is appended: an earlier item for the key still answers, otherwise the new item does |
| OrderedDict.Put | util/generate-ami-list.py:54 | after `d[k] = v`, `k` maps to `v` and every other key keeps its value |
| OrderedDict.PutKeys | util/generate-ami-list.py:54 | `d[k] = v` keeps an existing key in its place and appends a new key at the end of the iteration order |
| OrderedDict.Update | util/generate-ami-list.py:89 | after `d.update(u)`, a key of `u` has `u`'s value and any other key keeps `d`'s value |
| OrderedDict.SortByKey | util/generate-ami-list.py:91 | `OrderedDict(sorted(d.items()))` has strictly ascending keys and is a permutation of `d`'s items |
| OrderedDict.SortByKeyGet | util/generate-ami-list.py:91 | sorting changes no lookup |
| OrderedDict.SortByKeyGetAll | util/generate-ami-list.py:91 | sorting changes no lookup, for every key at once |
| OrderedDict.SortedUnique | util/generate-ami-list.py:91 | two strictly sorted sequences with the same items are equal |
| OrderedDict.SortedDeterminedByGet | util/generate-ami-list.py:91 | two strictly sorted dictionaries that answer every lookup alike are equal |
| OrderedDict.SortByKeyDeterminedByGet | util/generate-ami-list.py:59 | the sorted dictionary depends only on the lookups, whatever the insertion order, and so does the size |
| OrderedDict.SortByKeyOfSorted | util/generate-ami-list.py:91 | sorting an already sorted mapping returns it unchanged |
| AmiList.LastMatch | util/generate-ami-list.py:51-54 | a fragment gets an id exactly when some image name contains it; the id is that of a matching image after which no image matches |
| AmiList.ClassifyTag | util/generate-ami-list.py:51-54 | a `distros` tag gets an id exactly when its fragment is in some image name, and it gets the last such image's id |
| AmiList.ClassifyImages | util/generate-ami-list.py:50-54 | the two nested loops leave every tag with the id its classification gives, and no other key |
| AmiList.Matches | util/generate-ami-list.py:50-54 | the matched tags in table order answer every lookup like the classification |
| AmiList.MatchesEmpty | util/generate-ami-list.py:56-57 | nothing is classified exactly when no image name contains any distro fragment |
| AmiList.RegionEntryMeaning | util/generate-ami-list.py:56-62 | a region contributes an entry exactly when describe_images succeeded and something matched; the entry is non-empty, strictly sorted by tag and classifies every tag |
| AmiList.DiscoverRegion | util/generate-ami-list.py:50-59 | one region's `try` body yields exactly that region's entry |
| AmiList.LastAssignedMeaning | util/generate-ami-list.py:43-59 | a region is absent exactly when none of its queries produced an entry; when present it holds the entry of a query for it after which no query for it produced one |
| AmiList.LastAssignedDistinct | util/generate-ami-list.py:43-59 | when no region is queried twice (the region list is sorted and distinct), a region holds exactly its own query's entry |
| AmiList.GetAmiList | util/generate-ami-list.py:40-64 | the run aborts exactly when some describe_images call raised something other than `ClientError`; otherwise every region maps to the last entry produced for it |
| CfnTemplate.MergeAmis | util/generate-ami-list.py:88-91 | the merged mapping is strictly sorted by region; an updated region takes the new entry whole and any other region keeps its entry |
| CfnTemplate.MergeAmisKeys | util/generate-ami-list.py:87-91 | the merged regions are the template's regions plus the updated ones: none is removed and none is invented |
| CfnTemplate.MergeAmisIgnoresUpdateOrder | util/generate-ami-list.py:89-91 | the merge does not depend on the order of the discovered regions |
| CfnTemplate.MergeAmisIdempotent | util/generate-ami-list.py:89-91 | merging the same discoveries a second time changes nothing |
| CfnTemplate.MergeThree | util/generate-ami-list.py:89-91 | a template region below two discovered regions (given in descending order) merges into the three regions in ascending order, each with its own entry |
| CfnTemplate.MergeAmisExample | util/generate-ami-list.py:89-91 | us-east-1 and eu-west-1 discovered over a template holding ap-south-1 give ap-south-1, eu-west-1, us-east-1 in that order |
| CfnTemplate.Template.constructor | util/generate-ami-list.py:84-88 | the parsed template holds the given `AWSRegionOS2AMI` mapping, or none when the document lacks it |
| CfnTemplate.Template.UpdateCfnTemplate | util/generate-ami-list.py:83-100 | with a mapping, it stores and returns the merge of the mapping and the update; without one it fails and leaves the document unchanged |
| AmisTxt.Holders | util/generate-ami-list.py:71-73 | the regions listed under a tag are exactly the regions holding the tag, with the id they hold |
| AmisTxt.HoldersAppend | util/generate-ami-list.py:71-73 | the lines of a tag over two runs of regions are the lines of the first run followed by those of the second |
| AmisTxt.HoldersSorted | util/generate-ami-list.py:71-73 | over a region-sorted mapping, every section lists its regions in strictly ascending order |
| AmisTxt.ConvertJsonToTxt | util/generate-ami-list.py:67-75 | the loops produce, line by line, every distro's header in table order followed by the line of each region holding it, each line ended by a newline |
| AmisTxt.SplitJoin | util/generate-ami-list.py:67-75 | newline-terminated lines without inner newlines split back into the same lines |
| AmisTxt.ParseEntryLine | util/generate-ami-list.py:73 | a `region: id` line reads back as its region and id and is not a header |
| AmisTxt.ParseEntryLines | util/generate-ami-list.py:71-73 | a section's region lines read back as its holders and stop at the next header |
| AmisTxt.ParseReportLines | util/generate-ami-list.py:69-73 | the report's lines read back as one section per tag, in table order, each with exactly its holders |
| AmisTxt.ReportLinesPrintable | util/generate-ami-list.py:69-73 | no report line holds a newline when no tag, region or id does |
| AmisTxt.ReportRoundTrip | util/generate-ami-list.py:67-75 | the report text reads back as exactly one section per tag in table order (an empty section for a tag no region holds), each listing the regions holding the tag with their ids in mapping order |
| GenerateAmiList.SelectPartition | util/generate-ami-list.py:127-138 | a partition is accepted exactly when it is commercial, govcloud or china; an accepted one yields a 12-digit owner account and a region name |
| GenerateAmiList.SelectPartitionDistinct | util/generate-ami-list.py:127-135 | different partitions have different owner accounts and different home regions |
| GenerateAmiList.Run | util/generate-ami-list.py:109-146 | the run exits (with 1) exactly for an unknown partition; it fails, with the template unchanged, exactly when a describe_images call raised something other than `ClientError` or the template lacks the mapping; in every other case it writes both outputs: the template holds the sorted merge and the report is rendered from it, every section listing regions in ascending order |

## Left out

- The describe_images call is replaced by its outcome per region. So are its owner and name filter (`aws-parallelcluster-<version>*<date>`) and the boto3 client. Which images the service returns is outside the model.
- `get_all_aws_regions` (describe_regions plus `sorted`) is a service call. Its region list comes in as the sequence of queries. `AmiList.LastAssignedDistinct` states what a list without repeats, such as that one, gives.
- Reading and writing the JSON template and the report file are left out. So are the JSON layout (indent, separators, trailing newline) and the command-line parsing. The template is modelled by its `AWSRegionOS2AMI` mapping only, and the report by its text.
- The warning printed for a region without matches and the message for an unknown partition are output only. Dropping the region and exiting with 1 are modelled.
- The kind of exception is not modelled. `ClientError` is told apart from every other exception, which ends the run, and a template without `Mappings` or without `AWSRegionOS2AMI` ends the run in the same way.
- AmiList.GetAmiList: does not state the key order of `amis_json`. `OrderedDict.PutKeys` gives insertion order, and `CfnTemplate.MergeAmisIgnoresUpdateOrder` shows that the merge, the only consumer, does not depend on it.
- AmiList.ClassifyImages: takes the `distros` table as a parameter. `GenerateAmiList.Run` passes the `Distros` constant.
- AmisTxt.ReportRoundTrip: holds only for printable names, i.e. no newline in a tag, region or id, and no `:` or `#` in a region. The script does not check this.
