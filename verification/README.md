# drushmodule release descriptor, modelled in Dafny

drushmodule runs as a git hook beside a Drupal module. It finds the module's
release branches (`6.x…`, `7.x…`, `8.x…`), reads the module's `.info` file and
writes an update descriptor `<core>.xml`. That descriptor is the
release-history document `drush dl --source` understands.

This project models the deterministic core of that work:

- `create_xml.dfy` (module `CreateXml`) covers `setTitle`, `setTerms` and
  `setReleases`. They append children in place to a mutable `project`
  element. Each block is written down as a value (`TitleFields`,
  `TermsTree`, `ReleasesTree`). The methods are proved to build exactly
  that value, and lemmas state what the value holds: tags and their order,
  the derived texts (short name, major and patch numbers, release name),
  and which exception is raised for which missing key or malformed
  version.
- `drush_module.dfy` (module `DrushModule`) covers three pieces:
  - the `getInfo` parser, turning `.info` text into a map;
  - the `getTagList` filter, a scanner for the one pattern
    `\b[6-8]\.x\S*`, proved sound, complete, and insensitive to the strip
    applied before it;
  - `writeInfoToXML`: the file name and the assembled document (header,
    then the `project` tree), including which file is left behind when a
    step raises.
- `xml.dfy` (module `Xml`) holds the part of `xml.etree.ElementTree` in use:
  - a mutable `Element` class;
  - `SubElement`;
  - the value `Tree` of a subtree;
  - the predicate `Holds`, tying the objects to a tree value.
- `strings.dfy` (module `Strings`) holds the Python `str` operations the
  code calls: `split`, `replace(c, "")`, `lower`, `strip` and `str(n)`,
  and the `\s` and `\w` classes of `re`. `Find` (leftmost occurrence) is
  the helper that defines `Split`. `Join` exists only to state that a split
  can be undone.
- `wrappers.dfy` (module `Wrappers`) holds `Option`, and `Result` with the
  two exceptions the code can raise: `KeyError` for a missing dictionary
  key, and `IndexError` for `split(...)[1]` on a text without the
  separator.

Python exceptions are modelled as `Err` results. When an element was
appended before the exception was raised, the model appends it too.

The digest, the size and the two clock readings are parameters (`Stamp`).
The `.info` text is a parameter, and so is the `git branch` listing.

## Model

| member | source | states |
|---|---|---|
| CreateXml.Lookup | create_xml.py:30 | `info[key]` gives the mapped value exactly when the key is present, and KeyError(key) otherwise |
| CreateXml.ShortName | create_xml.py:31 | the short name holds no space and no upper-case ASCII letter, and is no longer than the name |
| CreateXml.ShortNameIgnoresSpaces | create_xml.py:31 | a space anywhere in the name does not change the short name |
| CreateXml.ShortNameOfSpaceless | create_xml.py:31 | for a name without spaces the short name has the same length, each ASCII capital becomes its small letter, and every other character is kept. Together with ShortNameIgnoresSpaces this fixes the short name of every name |
| CreateXml.ShortNameIdempotent | create_xml.py:31 | the short name of a short name is itself |
| CreateXml.VersionSegmentSpec | create_xml.py:35-38 | `version.split("-")[1]` exists exactly when the version has a `-`, and IndexError otherwise. It is the `-`-free text right after the first `-`, ending at the next `-` or at the end |
| CreateXml.VersionMajorSpec | create_xml.py:35-38 | the major number exists exactly when the version has a `-`. It is the text right after the first `-`, free of `-` and `.`, followed by `.`, `-` or the end |
| CreateXml.VersionPatchSpec | create_xml.py:149-152 | the patch number exists exactly when the segment after the first `-` holds a `.`, and IndexError otherwise. It is the text between the segment's first `.` and its next `.` or its end |
| CreateXml.VersionRoundTrip | create_xml.py:149-152 | a version written `<core>-<major>.<patch>` reads back as that major and that patch number |
| CreateXml.VersionExample | create_xml.py:99-103 | `7.x-1.0` has major `1` and patch `0`, as in the documented example |
| CreateXml.TitleFieldsErrors | create_xml.py:30-41 | the title fields exist exactly when name, core and version are present and the version has a `-`. The error is the first failing lookup, in the order name, core, version, then IndexError |
| CreateXml.TitleFieldsShape | create_xml.py:30-41 | ten fields with the tags title … link in order. The texts are the name, the short name, `Deeplace`, `project_module` and the core, then the same major number three times, then `published` and the home link |
| CreateXml.SetTitle | create_xml.py:30-44 | on error nothing is appended and the error is returned. Otherwise exactly ten new leaves are appended, they hold the title fields, and the existing children are unchanged |
| CreateXml.AddLeaves | create_xml.py:42-44 | one leaf per `(tag, text)` pair is appended in order, and the existing children are unchanged |
| CreateXml.AddTerm | create_xml.py:87-91 | one `term` is appended, with a `name` child then a `value` child carrying the pair |
| CreateXml.AddTerms | create_xml.py:86-91 | one `term` per pair is appended in order, and the existing children are unchanged |
| CreateXml.AddTermsBlock | create_xml.py:79-91 | exactly one `terms` element is appended, holding the terms of the pairs |
| CreateXml.ProjectTermsShape | create_xml.py:80-85 | the project terms are five `term` elements in the listed order, each exactly a `name` then a `value` |
| CreateXml.SetTerms | create_xml.py:79-91 | exactly one child is appended, it is the five-term `terms` block, and the existing children are unchanged |
| CreateXml.ReleasesTreeErrors | create_xml.py:141-166 | the release block is complete exactly when name, version and core are present and the version has a major and a patch number. Otherwise the error is the first one in source order: KeyError name, KeyError version, IndexError from the version splits, then KeyError core |
| CreateXml.ReleasesTreeShape | create_xml.py:141-190 | one `release` with 13 children. Its name is the short name, a space and the version. `version` and `tag` are the version. The major and patch numbers and `status` follow, then `mdhash` = digest and `filesize` = size. The file-level `md5` and `size` equal `mdhash` and `filesize`, and the release terms close it |
| CreateXml.ReleaseTermsShape | create_xml.py:181-190 | three terms, all named "Release type", with the values Security update, Bug fixes and New features, in order |
| CreateXml.SetReleases | create_xml.py:141-190 | exactly one child is appended and the existing ones are unchanged. On success that child is the releases tree; on error the error is the one ReleasesTree names |
| CreateXml.FillRelease | create_xml.py:143-190 | the children of `release` become exactly those of the release value, or the release value's error is returned |
| CreateXml.FillHead | create_xml.py:143-152 | the result is the name, the version and the major and patch numbers, or their first error. The first five children match them |
| CreateXml.FillTail | create_xml.py:153-190 | fails exactly when `core` is missing (KeyError core). Otherwise it appends the eight tail children of the release |
| CreateXml.AddNameTags | create_xml.py:143-148 | succeeds exactly when name and version are present (KeyError name first). It appends `name` = short name, a space and the version, then `version` and `tag` = version |
| CreateXml.AddVersionParts | create_xml.py:149-152 | succeeds exactly when the major and patch numbers exist, with the major number's error first. It appends the two numbers as leaves |
| CreateXml.AppendComputed | create_xml.py:149-150 | exactly one element with the tag, no attributes and no children is appended after the unchanged old children. Its text is the computed text on success and none when the computation raises |
| CreateXml.AddLinks | create_xml.py:153-160 | appends `status`, `release_link`, `download_link` and `date` with their fixed texts and the clock reading |
| CreateXml.AddDigest | create_xml.py:161-166 | fails with KeyError core exactly when `core` is missing. In that case one `mdhash` element without text has already been appended after the unchanged old children. Otherwise it appends `mdhash` = digest and `filesize` = size |
| CreateXml.Digest | create_xml.py:162-164 | the `mdhash` text is the digest when `core` names the archive, and KeyError core otherwise |
| CreateXml.AddFilesTerms | create_xml.py:167-190 | appends the `files` block and then the release `terms` block |
| CreateXml.AddFiles | create_xml.py:167-179 | appends one `files` element holding the one `file` element |
| CreateXml.AddFile | create_xml.py:168-179 | one `file` with `url`, `archive_type`, `md5` = digest, `size` = size and `filedata` = clock, in order |
| DrushModule.NonEmpty | drush_module.py:147 | `filter(None, …)` keeps exactly the non-empty lines |
| DrushModule.NonEmptyConcat | drush_module.py:147 | filtering `a + b` gives the lines kept from `a` followed by those kept from `b`, so the file's order is kept |
| DrushModule.NonEmptySingle | drush_module.py:147 | one line is kept exactly when it is not empty |
| DrushModule.LinesSpec | drush_module.py:146-147 | the lines are exactly the non-empty pieces between line breaks, and none holds a line break |
| DrushModule.Key | drush_module.py:148 | a key holds no `"` |
| DrushModule.Value | drush_module.py:149 | a value holds no `"` |
| DrushModule.ParseLine | drush_module.py:148-149 | a line gives an entry exactly when it holds ` = `, and IndexError otherwise |
| DrushModule.KeyValueSpec | drush_module.py:148-149 | the key is the text before the first ` = ` (the whole line without one). The value is the text between the first ` = ` and the next one or the end. Both have every `"` removed |
| DrushModule.CollectOk | drush_module.py:148-150 | the comprehension succeeds exactly when every line has a separator, and raises IndexError otherwise |
| DrushModule.CollectKeys | drush_module.py:148-150 | the keys of the map are those already there plus the keys of the lines |
| DrushModule.CollectKeeps | drush_module.py:148-150 | a key no line mentions keeps its earlier value |
| DrushModule.CollectLast | drush_module.py:148-150 | each key maps to the value of the last line with that key |
| DrushModule.ParseInfoOk | drush_module.py:146-150 | parsing succeeds exactly when every non-empty line has ` = ` |
| DrushModule.ParseInfoKeys | drush_module.py:146-150 | the keys of the map are exactly the keys of the non-empty lines |
| DrushModule.ParseInfoLastWins | drush_module.py:146-150 | the value kept for a key is that of the last line with that key |
| DrushModule.ParseInfoQuoteFree | drush_module.py:148-149 | no key and no value of the map holds `"` |
| DrushModule.LastLineOfKey | drush_module.py:148-150 | every key of the lines has a last line that defines it |
| DrushModule.RunEnd | drush_module.py:66 | the `\S*` run ends at whitespace or at the end of the text, with no whitespace before that |
| DrushModule.MatchesSound | drush_module.py:66 | every span found starts at or after the scan position and is a match of `\b[6-8]\.x\S*`, and the spans are in increasing order |
| DrushModule.MatchesComplete | drush_module.py:66 | every position at or after the scan position where the pattern starts lies inside one of the matches found |
| DrushModule.FindAll | drush_module.py:66 | one tag per match; each tag starts with `6`, `7` or `8` followed by `.x` |
| DrushModule.FindAllSpec | drush_module.py:66 | each tag is the text of a match. It starts with `[6-8].x` at a word boundary, holds no whitespace, and ends at whitespace or at the end. Tags come in order of appearance, and no other match is missed |
| DrushModule.TagListGuard | drush_module.py:64-67 | a stripped listing is never `" "` or `"\n"`, so the guard always lets the listing through |
| DrushModule.TagListBlank | drush_module.py:62-68 | an empty or all-whitespace branch listing gives no tags |
| DrushModule.TagListIgnoresStrip | drush_module.py:64-66 | stripping the listing first finds the same tags as scanning the raw listing |
| DrushModule.FindAllWindow | drush_module.py:64-66 | a text and the same text with whitespace around it have the same tags |
| DrushModule.FileName | drush_module.py:104 | the file name is the core followed by `.xml`, and KeyError core when the core is missing |
| DrushModule.DescriptorFailures | drush_module.py:103-113 | nothing is written exactly when the info cannot be parsed or has no core. When a builder raises, the file `<core>.xml` holds the header alone, and the error is a missing name or version or an IndexError |
| DrushModule.DescriptorShape | drush_module.py:104-113 | a written descriptor is `<core>.xml`: the XML declaration, then one `project` element with `xmlns:dc`. Its children are ten title leaves, the terms and the releases. The release name extends the title's short name, and `version_major` equals the title's major number |
| DrushModule.WriteInfoToXML | drush_module.py:103-113 | the outcome is the descriptor value above |
| DrushModule.BuildProject | drush_module.py:108-113 | creating `project`, setting the attribute and calling the three builders in place yields the project tree value, or its error |
| DrushModule.AddTitleTerms | drush_module.py:110-111 | setTitle then setTerms leave the title leaves and the terms under `project`, or setTitle's error |
| Xml.Element.constructor | drush_module.py:108 | a new element has the tag and no text, attributes or children |
| Xml.Element.Set | drush_module.py:109 | sets one attribute and changes nothing else |
| Xml.SubElement | create_xml.py:43 | a new element is appended as the last child, and the parent is otherwise unchanged |
| Xml.AddLeaf | create_xml.py:43-44 | a new leaf with the text is appended as the last child |
| Xml.Snapshot | drush_module.py:113 | reading the objects back gives exactly the tree they hold |
| Strings.SplitJoin | drush_module.py:146 | joining the pieces of `split(sep)` with `sep` gives back the text |
| Strings.SplitFirst | drush_module.py:148 | `split(sep)[0]` is the prefix before the first `sep`, or all of the text. No occurrence of `sep` starts inside it, even for a self-overlapping separator such as ` = ` |
| Strings.SplitSecond | drush_module.py:149 | `split(sep)[1]` exists exactly when `sep` occurs. It runs from after the first `sep` to the next `sep` or the end, and no later occurrence starts inside it |
| Strings.RemoveAll | drush_module.py:148-149 | `replace(c, "")` leaves no `c` and makes the text no longer |
| Strings.RemoveAllKeeps | drush_module.py:148-149 | every other character keeps its number of occurrences |
| Strings.LowerSpace | create_xml.py:31 | lower-casing neither creates nor removes spaces |
| Strings.StripSlice | drush_module.py:64 | `strip()` keeps a slice of the text and cuts only whitespace on either side |
| Strings.StripEdges | drush_module.py:64 | a stripped text neither starts nor ends with whitespace |
| Strings.NatToStringRoundTrip | create_xml.py:160 | `str(n)` is decimal digits without a leading zero that read back as `n` |

## Left out

- The `git` calls (`git branch`, `git checkout`, `git archive`) and `os.chdir` are left out. The branch listing and the `.info` text are parameters.
- Opening, reading and writing files is left out. `WriteInfoToXML` returns the descriptor it would leave (name, header, tree), or none.
- `hashlib.md5`, `os.path.getsize` and `time.time` are parameters (`Stamp`). The model does not say the two clock readings are close, or that the digest is 32 hex digits.
- `CreateXml.ReleasesTreeShape`: the archive is read twice for the digest and twice for the size (create_xml.py:162-166 and 174-177). The model assumes both reads return the same value and uses one `md5Hex` and one `size` for both. So the equalities `md5` = `mdhash` and `size` = `filesize` rest on that assumption.
- An archive that cannot be opened or measured (`FileNotFoundError` from `open` or `os.path.getsize`) is not modelled. The archive is assumed to exist.
- `ET.tostring`: the model returns the tree. Byte-exact serialisation, attribute escaping and the UTF-8 round trip are not modelled.
- `main`, its loop over the tags, `createArchive`, logging and the catch-all `except` are left out (plumbing around I/O).
- `.decode("utf-8")` of the branch listing and universal-newline translation when the `.info` file is read are left out. The texts are taken as already decoded.
- `Strings.Lower`: only ASCII letters are lower-cased. Python's full Unicode case mapping is not modelled.
- `DrushModule.StartsTag`: `\b` and `\w` are modelled for ASCII word characters only. Python's Unicode `\w` is not modelled.
- `CreateXml.SetReleases`: on error the contract says that one child was appended and which error was raised. It does not describe the partly built `releases` subtree left under `project`.
- `DrushModule.WriteInfoToXML`: after a builder raises, the model records the header-only file. It does not record the partly built `project` element, which is discarded.
- General regular expressions are left out. Only the one pattern `\b[6-8]\.x\S*` is modelled, as a scanner.
