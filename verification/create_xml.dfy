/**
 * The release descriptor of create_xml.py: `setTitle`, `setTerms` and
 * `setReleases` each append a fixed block of children to the `project`
 * element, taking the texts from the module's info map.
 *
 * Each block is first written down as a value (`TitleFields`, `TermsTree`,
 * `ReleasesTree`); the methods build the elements in place and are proved to
 * build exactly that value; the lemmas state what the values promise.
 */
module CreateXml {
  import opened Wrappers
  import opened Strings
  import opened Xml

  /** The info map read from the module's `.info` file. */
  type Info = map<string, string>

  /**
   * The values the builder takes from the file system and the clock: the MD5
   * hex digest and the size in bytes of the archive `../<core>.tar.gz`, and
   * the two readings of `int(time.time())` (for `date`, then for `filedata`).
   */
  datatype Stamp = Stamp(md5Hex: string, size: nat, date: nat, fileDate: nat)

  const Creator := "Deeplace"
  const ProjectType := "project_module"
  const Published := "published"
  const HomeLink := "http://deeplace.md/"
  const ReleaseHistory := "http://drupalupdates.deeplace.md/release-history"
  const DownloadLink := "http://drupalupdates.deeplace.md/7.x-2.8.tar.gz"
  const ArchiveType := "tar.gz"

  /** The tags of the title block, in the order they are appended. */
  const TitleTags := ["title", "short_name", "dc:creator", "type", "api_version",
                      "recommended_major", "supported_major", "default_major",
                      "project_status", "link"]

  /** The `(name, value)` pairs of the project-level terms. */
  const ProjectTerms := [("Project", "Modules"),
                         ("Maintenance status", "Seeking new maintaner"),
                         ("Development status", "No further development"),
                         ("Module categories", "Content"),
                         ("Module categories", "Import/export")]

  /** The `(name, value)` pairs of the release-level terms. */
  const ReleaseTerms := [("Release type", "Security update"),
                         ("Release type", "Bug fixes"),
                         ("Release type", "New features")]

  // ---------------------------------------------------------------------------
  // Texts derived from the info map
  // ---------------------------------------------------------------------------

  /** `info[key]`, raising KeyError when the key is missing. */
  function Lookup(info: Info, key: string): (r: Result<string>)
    ensures r.Ok? <==> key in info
    ensures r.Ok? ==> r.value == info[key]
    ensures r.Err? ==> r.error == KeyError(key)
  {
    if key in info then Ok(info[key]) else Err(KeyError(key))
  }

  /** `name.replace(" ", "").lower()`: the machine name of the module. */
  function ShortName(name: string): (r: string)
    ensures ' ' !in r
    ensures forall i :: 0 <= i < |r| ==> !IsAsciiUpper(r[i])
    ensures |r| <= |name|
  {
    var squeezed := RemoveAll(name, ' ');
    LowerSpace(squeezed);
    Lower(squeezed)
  }

  /** Spaces anywhere in the name do not change the short name. */
  lemma ShortNameIgnoresSpaces(a: string, b: string)
    ensures ShortName(a + " " + b) == ShortName(a + b)
  {
    RemoveAllConcat(a + " ", b, ' ');
    RemoveAllConcat(a, " ", ' ');
    RemoveAllConcat(a, b, ' ');
    assert RemoveAll(" ", ' ') == [];
    assert RemoveAll(a, ' ') + [] == RemoveAll(a, ' ');
  }

  /**
   * For a name without spaces the short name is the name lower-cased
   * character by character: same length, an ASCII capital becomes its small
   * letter, and every other character stays as it is. With
   * `ShortNameIgnoresSpaces` this fixes the short name of every name.
   */
  lemma ShortNameOfSpaceless(name: string)
    requires ' ' !in name
    ensures var r := ShortName(name);
      && |r| == |name|
      && forall i :: 0 <= i < |name| ==>
           (if IsAsciiUpper(name[i]) then r[i] as int == name[i] as int + 32 else r[i] == name[i])
  {
    RemoveAllAbsent(name, ' ');
  }

  /** A short name is its own short name. */
  lemma ShortNameIdempotent(name: string)
    ensures ShortName(ShortName(name)) == ShortName(name)
  {
    var s := ShortName(name);
    RemoveAllAbsent(s, ' ');
    assert Lower(s) == s;
  }

  /** `version.split("-")[1]`: the part after the first `-`, up to a second `-`. */
  function VersionSegment(version: string): Result<string>
  {
    var parts := Split(version, "-");
    if |parts| < 2 then Err(IndexError) else Ok(parts[1])
  }

  /** `version.split("-")[1].split(".")[0]`: the major number of the release. */
  function VersionMajor(version: string): Result<string>
  {
    var segment :- VersionSegment(version);
    Ok(Split(segment, ".")[0])
  }

  /** `version.split("-")[1].split(".")[1]`: the patch number of the release. */
  function VersionPatch(version: string): Result<string>
  {
    var segment :- VersionSegment(version);
    var pieces := Split(segment, ".");
    if |pieces| < 2 then Err(IndexError) else Ok(pieces[1])
  }

  /**
   * The segment exists exactly when the version has a `-`; it starts right
   * after the first `-`, holds no `-`, and ends at the next `-` or at the end.
   */
  lemma VersionSegmentSpec(version: string)
    ensures VersionSegment(version).Ok? <==> '-' in version
    ensures VersionSegment(version).Err? ==> VersionSegment(version).error == IndexError
    ensures VersionSegment(version).Ok? ==>
      var start, seg := Find(version, "-").value + 1, VersionSegment(version).value;
      && version[start - 1] == '-' && '-' !in version[..start - 1]
      && start + |seg| <= |version| && version[start..start + |seg|] == seg
      && '-' !in seg
      && (start + |seg| == |version| || version[start + |seg|] == '-')
  {
    SplitSecondChar(version, '-');
  }

  /**
   * The major number exists exactly when the version has a `-`. It is the
   * text right after the first `-`, holding neither `-` nor `.`, and it is
   * followed by a `.`, a `-` or the end of the version.
   */
  lemma VersionMajorSpec(version: string)
    ensures VersionMajor(version).Ok? <==> '-' in version
    ensures VersionMajor(version).Err? ==> VersionMajor(version).error == IndexError
    ensures VersionMajor(version).Ok? ==>
      var start, major := Find(version, "-").value + 1, VersionMajor(version).value;
      && start + |major| <= |version| && version[start..start + |major|] == major
      && '-' !in major && '.' !in major
      && (start + |major| == |version| || version[start + |major|] in {'-', '.'})
  {
    VersionSegmentSpec(version);
    if '-' in version {
      var start := Find(version, "-").value + 1;
      var seg := VersionSegment(version).value;
      var major := Split(seg, ".")[0];
      SplitFirstChar(seg, '.');
      SliceAbsent(seg, 0, |major|, '-');
      assert version[start..start + |major|] == seg[..|major|];
      if major != seg {
        assert version[start + |major|] == seg[|major|];
      }
    }
  }

  /**
   * The patch number exists exactly when the version has a `-` and its
   * segment has a `.`. It is the text right after the first `.` of the
   * segment, holding neither `-` nor `.`, followed by `.` or the end of the
   * segment (a `-` or the end of the version).
   */
  lemma VersionPatchSpec(version: string)
    ensures VersionPatch(version).Ok? <==>
      VersionSegment(version).Ok? && '.' in VersionSegment(version).value
    ensures VersionPatch(version).Err? ==> VersionPatch(version).error == IndexError
    ensures VersionPatch(version).Ok? ==>
      var seg, patch := VersionSegment(version).value, VersionPatch(version).value;
      var start := Find(seg, ".").value + 1;
      && seg[start - 1] == '.' && '.' !in seg[..start - 1]
      && start + |patch| <= |seg| && seg[start..start + |patch|] == patch
      && '-' !in patch && '.' !in patch
      && (start + |patch| == |seg| || seg[start + |patch|] == '.')
  {
    VersionSegmentSpec(version);
    if VersionSegment(version).Ok? {
      var seg := VersionSegment(version).value;
      SplitSecondChar(seg, '.');
      if '.' in seg {
        var start := Find(seg, ".").value + 1;
        var patch := Split(seg, ".")[1];
        SliceAbsent(seg, start, start + |patch|, '-');
      }
    }
  }

  /**
   * A version written `<core>-<major>.<patch>`, with no `-` in the core and
   * neither `-` nor `.` in the major and patch numbers, reads back as that
   * major and patch number.
   */
  lemma VersionRoundTrip(core: string, major: string, patch: string)
    requires '-' !in core
    requires '-' !in major && '.' !in major && '-' !in patch && '.' !in patch
    ensures VersionMajor(core + "-" + major + "." + patch) == Ok(major)
    ensures VersionPatch(core + "-" + major + "." + patch) == Ok(patch)
  {
    var seg := major + "." + patch;
    PiecesOf(major, patch);
    SegmentOf(core, seg);
    assert core + "-" + major + "." + patch == core + "-" + seg;
  }

  /** The segment of `<core>-<seg>` is `seg` when neither part holds a `-`. */
  lemma SegmentOf(core: string, seg: string)
    requires '-' !in core && '-' !in seg
    ensures VersionSegment(core + "-" + seg) == Ok(seg)
  {
    var v := core + "-" + seg;
    assert v[..|core|] == core && v[|core|] == '-' && v[|core| + 1..] == seg;
    SplitCharAt(v, '-', |core|);
    SplitCharNone(seg, '-');
  }

  /** `<major>.<patch>` splits on `.` into the two numbers and holds no `-`. */
  lemma PiecesOf(major: string, patch: string)
    requires '-' !in major && '.' !in major && '-' !in patch && '.' !in patch
    ensures Split(major + "." + patch, ".") == [major, patch]
    ensures '-' !in major + "." + patch
  {
    var seg := major + "." + patch;
    assert seg[..|major|] == major && seg[|major|] == '.' && seg[|major| + 1..] == patch;
    SplitCharAt(seg, '.', |major|);
    SplitCharNone(patch, '.');
  }

  /** The example of the source's documentation: `7.x-1.0` is major 1, patch 0. */
  lemma VersionExample()
    ensures VersionMajor("7.x-1.0") == Ok("1")
    ensures VersionPatch("7.x-1.0") == Ok("0")
  {
    VersionRoundTrip("7.x", "1", "0");
    assert "7.x" + "-" + "1" + "." + "0" == "7.x-1.0";
  }

  // ---------------------------------------------------------------------------
  // setTitle
  // ---------------------------------------------------------------------------

  /**
   * The `(tag, text)` list that setTitle appends, or the exception raised
   * while the list is being built (before anything is appended).
   */
  function TitleFields(info: Info): Result<seq<(string, string)>>
  {
    var name :- Lookup(info, "name");
    var core :- Lookup(info, "core");
    var version :- Lookup(info, "version");
    var major :- VersionMajor(version);
    Ok([("title", name), ("short_name", ShortName(name)), ("dc:creator", Creator),
        ("type", ProjectType), ("api_version", core), ("recommended_major", major),
        ("supported_major", major), ("default_major", major),
        ("project_status", Published), ("link", HomeLink)])
  }

  /** The leaves a list of `(tag, text)` pairs becomes. */
  function Leaves(fields: seq<(string, string)>): (ts: seq<Tree>)
    ensures |ts| == |fields|
    ensures forall k :: 0 <= k < |fields| ==> ts[k] == Leaf(fields[k].0, fields[k].1)
  {
    if fields == [] then [] else Leaves(fields[..|fields| - 1]) + [Leaf(fields[|fields| - 1].0, fields[|fields| - 1].1)]
  }

  /**
   * setTitle succeeds exactly when the info has `name`, `core` and `version`
   * and the version has a `-`; otherwise the error is that of the first
   * failing lookup, in the order name, core, version.
   */
  lemma TitleFieldsErrors(info: Info)
    ensures TitleFields(info).Ok? <==>
      "name" in info && "core" in info && "version" in info && '-' in info["version"]
    ensures "name" !in info ==> TitleFields(info) == Err(KeyError("name"))
    ensures "name" in info && "core" !in info ==> TitleFields(info) == Err(KeyError("core"))
    ensures "name" in info && "core" in info && "version" !in info ==>
      TitleFields(info) == Err(KeyError("version"))
    ensures "name" in info && "core" in info && "version" in info && '-' !in info["version"] ==>
      TitleFields(info) == Err(IndexError)
  {
    if "version" in info {
      VersionMajorSpec(info["version"]);
    }
  }

  /**
   * The title block is ten leaves with the tags of `TitleTags` in order;
   * `title` is the name, `short_name` the name without spaces in lower case,
   * `api_version` the core, and the three `*_major` leaves all carry the major
   * number of the version.
   */
  lemma TitleFieldsShape(info: Info)
    requires TitleFields(info).Ok?
    ensures var fs := TitleFields(info).value;
      && |fs| == 10
      && (forall k :: 0 <= k < 10 ==> fs[k].0 == TitleTags[k])
      && fs[0].1 == info["name"] && fs[1].1 == ShortName(info["name"])
      && fs[2].1 == "Deeplace" && fs[3].1 == "project_module" && fs[4].1 == info["core"]
      && fs[5].1 == fs[6].1 == fs[7].1 == VersionMajor(info["version"]).value
      && fs[8].1 == "published" && fs[9].1 == "http://deeplace.md/"
      && ' ' !in fs[1].1
  {
  }

  /**
   * `setTitle(project, info)`: appends the ten title leaves. When building the
   * field list raises, nothing is appended.
   */
  method SetTitle(project: Element, info: Info) returns (r: Result<()>, ghost fp: set<Element>)
    modifies project
    ensures project.tag == old(project.tag) && project.text == old(project.text)
    ensures project.attrib == old(project.attrib)
    ensures TitleFields(info).Err? ==>
      r == Err(TitleFields(info).error) && project.children == old(project.children)
    ensures TitleFields(info).Ok? ==> r == Ok(()) && fresh(fp)
    ensures TitleFields(info).Ok? ==>
      && |project.children| == |old(project.children)| + 10
      && project.children[..|old(project.children)|] == old(project.children)
      && HoldsAll(project.children[|old(project.children)|..], Leaves(TitleFields(info).value), fp)
  {
    var built := TitleFields(info);
    if built.Err? {
      return Err(built.error), {};
    }
    fp := AddLeaves(project, built.value);
    r := Ok(());
  }

  /**
   * One `SubElement` with its text per `(tag, text)` pair, appended to
   * `parent` in order.
   */
  method AddLeaves(parent: Element, fields: seq<(string, string)>) returns (ghost fp: set<Element>)
    modifies parent
    ensures parent.tag == old(parent.tag) && parent.text == old(parent.text)
    ensures parent.attrib == old(parent.attrib)
    ensures fresh(fp)
    ensures |parent.children| == |old(parent.children)| + |fields|
    ensures parent.children[..|old(parent.children)|] == old(parent.children)
    ensures HoldsAll(parent.children[|old(parent.children)|..], Leaves(fields), fp)
  {
    fp := {};
    var n := |parent.children|;
    for k := 0 to |fields|
      invariant parent.tag == old(parent.tag) && parent.text == old(parent.text)
      invariant parent.attrib == old(parent.attrib)
      invariant |parent.children| == n + k
      invariant parent.children[..n] == old(parent.children)
      invariant fresh(fp)
      invariant HoldsAll(parent.children[n..], Leaves(fields[..k]), fp)
    {
      ghost var before := parent.children[n..];
      var leaf := AddLeaf(parent, fields[k].0, fields[k].1);
      Adopt(before, Leaves(fields[..k]), fp, leaf, Leaf(fields[k].0, fields[k].1), {leaf});
      assert parent.children[n..] == before + [leaf];
      LeavesStep(fields, k);
      fp := fp + {leaf};
    }
    assert fields[..|fields|] == fields;
  }

  /** The leaves of one more pair are the leaves before it and one leaf more. */
  lemma LeavesStep(fields: seq<(string, string)>, k: nat)
    requires k < |fields|
    ensures Leaves(fields[..k + 1]) == Leaves(fields[..k]) + [Leaf(fields[k].0, fields[k].1)]
  {
    assert fields[..k + 1][..k] == fields[..k];
  }

  // ---------------------------------------------------------------------------
  // setTerms
  // ---------------------------------------------------------------------------

  /** `<term><name>…</name><value>…</value></term>` */
  function TermTree(pair: (string, string)): Tree {
    Branch("term", [Leaf("name", pair.0), Leaf("value", pair.1)])
  }

  /** The `term` elements of a list of `(name, value)` pairs, in order. */
  function TermTrees(pairs: seq<(string, string)>): (ts: seq<Tree>)
    ensures |ts| == |pairs|
    ensures forall k :: 0 <= k < |pairs| ==> ts[k] == TermTree(pairs[k])
  {
    if pairs == [] then [] else TermTrees(pairs[..|pairs| - 1]) + [TermTree(pairs[|pairs| - 1])]
  }

  /** `<terms>` holding one `term` per pair. */
  function TermsTree(pairs: seq<(string, string)>): Tree {
    Branch("terms", TermTrees(pairs))
  }

  /**
   * The body of that loop: `term = ET.SubElement(terms, "term")`, then its
   * `name` and `value` children with their texts.
   */
  method AddTerm(terms: Element, pair: (string, string)) returns (term: Element, ghost sub: set<Element>)
    modifies terms
    ensures terms.tag == old(terms.tag) && terms.text == old(terms.text)
    ensures terms.attrib == old(terms.attrib)
    ensures terms.children == old(terms.children) + [term]
    ensures fresh(sub) && Holds(term, TermTree(pair), sub)
  {
    term := SubElement(terms, "term");
    var name := AddLeaf(term, "name", pair.0);
    var value := AddLeaf(term, "value", pair.1);
    Adopt([], [], {}, name, Leaf("name", pair.0), {name});
    Adopt([name], [Leaf("name", pair.0)], {name}, value, Leaf("value", pair.1), {value});
    HoldsBranch(term, "term", [Leaf("name", pair.0), Leaf("value", pair.1)], {name, value});
    sub := {name, value, term};
  }

  /**
   * The loop shared by setTerms and setReleases: for each pair, a `term`
   * with a `name` and a `value` child is appended to `terms`.
   */
  method AddTerms(terms: Element, pairs: seq<(string, string)>) returns (ghost fp: set<Element>)
    modifies terms
    ensures terms.tag == old(terms.tag) && terms.text == old(terms.text)
    ensures terms.attrib == old(terms.attrib)
    ensures |terms.children| == |old(terms.children)| + |pairs|
    ensures terms.children[..|old(terms.children)|] == old(terms.children)
    ensures fresh(fp) && HoldsAll(terms.children[|old(terms.children)|..], TermTrees(pairs), fp)
  {
    fp := {};
    var n := |terms.children|;
    for k := 0 to |pairs|
      invariant terms.tag == old(terms.tag) && terms.text == old(terms.text)
      invariant terms.attrib == old(terms.attrib)
      invariant |terms.children| == n + k
      invariant terms.children[..n] == old(terms.children)
      invariant fresh(fp)
      invariant HoldsAll(terms.children[n..], TermTrees(pairs[..k]), fp)
    {
      ghost var before := terms.children[n..];
      var term, sub := AddTerm(terms, pairs[k]);
      Adopt(before, TermTrees(pairs[..k]), fp, term, TermTree(pairs[k]), sub);
      assert terms.children[n..] == before + [term];
      assert pairs[..k + 1] == pairs[..k] + [pairs[k]];
      fp := fp + sub;
    }
    assert pairs[..|pairs|] == pairs;
  }

  /**
   * `terms = ET.SubElement(parent, "terms")` followed by the loop that fills
   * it: one `terms` element appended to `parent`.
   */
  method AddTermsBlock(parent: Element, pairs: seq<(string, string)>) returns (terms: Element, ghost sub: set<Element>)
    modifies parent
    ensures parent.tag == old(parent.tag) && parent.text == old(parent.text)
    ensures parent.attrib == old(parent.attrib)
    ensures parent.children == old(parent.children) + [terms]
    ensures fresh(sub) && Holds(terms, TermsTree(pairs), sub)
  {
    terms := SubElement(parent, "terms");
    ghost var inner := AddTerms(terms, pairs);
    assert terms.children[0..] == terms.children;
    HoldsBranch(terms, "terms", TermTrees(pairs), inner);
    sub := inner + {terms};
  }

  /** The project-level terms are five `term` elements, each a `name` then a `value`. */
  lemma ProjectTermsShape()
    ensures var t := TermsTree(ProjectTerms);
      && t.tag == "terms" && |t.children| == 5
      && forall k :: 0 <= k < 5 ==>
           && t.children[k].tag == "term" && |t.children[k].children| == 2
           && t.children[k].children[0] == Leaf("name", ProjectTerms[k].0)
           && t.children[k].children[1] == Leaf("value", ProjectTerms[k].1)
  {
  }

  /** `setTerms(project, info)`: appends one `terms` element with the project terms. */
  method SetTerms(project: Element, info: Info) returns (ghost fp: set<Element>)
    modifies project
    ensures project.tag == old(project.tag) && project.text == old(project.text)
    ensures project.attrib == old(project.attrib)
    ensures |project.children| == |old(project.children)| + 1
    ensures project.children[..|old(project.children)|] == old(project.children)
    ensures fresh(fp) && Holds(project.children[|old(project.children)|], TermsTree(ProjectTerms), fp)
  {
    var terms;
    terms, fp := AddTermsBlock(project, ProjectTerms);
  }

  // ---------------------------------------------------------------------------
  // setReleases
  // ---------------------------------------------------------------------------

  /** The `file` element describing the release archive. */
  function FileTree(stamp: Stamp): Tree {
    Branch("file", Leaves(FileFields(stamp)))
  }

  /** The `(tag, text)` pairs of the leaves of the `file` element. */
  function FileFields(stamp: Stamp): seq<(string, string)> {
    [("url", ReleaseHistory), ("archive_type", ArchiveType), ("md5", stamp.md5Hex),
     ("size", NatToString(stamp.size)), ("filedata", NatToString(stamp.fileDate))]
  }

  /**
   * The texts setReleases reads from `info` before the archive: the name,
   * the version, and the major and patch numbers of the version, or the
   * first exception raised while they are computed.
   */
  function ReleaseFields(info: Info): Result<(string, string, string, string)>
  {
    var name :- Lookup(info, "name");
    var version :- Lookup(info, "version");
    var major :- VersionMajor(version);
    var patch :- VersionPatch(version);
    Ok((name, version, major, patch))
  }

  /** The first five children of `release`, whose texts come from `info`. */
  function HeadChildren(fields: (string, string, string, string)): seq<Tree> {
    [Leaf("name", ShortName(fields.0) + " " + fields.1), Leaf("version", fields.1), Leaf("tag", fields.1)]
    + [Leaf("version_major", fields.2), Leaf("version_patch", fields.3)]
  }

  /** The other children of `release`, which depend only on the archive and the clock. */
  function TailChildren(stamp: Stamp): seq<Tree> {
    [Leaf("status", Published), Leaf("release_link", ReleaseHistory),
     Leaf("download_link", DownloadLink), Leaf("date", NatToString(stamp.date))]
    + [Leaf("mdhash", stamp.md5Hex), Leaf("filesize", NatToString(stamp.size))]
    + [Branch("files", [FileTree(stamp)]), TermsTree(ReleaseTerms)]
  }

  /**
   * The `release` element setReleases builds, or the first exception raised
   * while its texts are computed: `info['name']`, `info['version']`, the
   * major number, the patch number, then `info['core']` (the archive path).
   */
  function ReleaseTree(info: Info, stamp: Stamp): Result<Tree>
  {
    var fields :- ReleaseFields(info);
    var core :- Lookup(info, "core");
    Ok(Branch("release", HeadChildren(fields) + TailChildren(stamp)))
  }

  /** The `releases` block setReleases appends: one `release`. */
  function ReleasesTree(info: Info, stamp: Stamp): Result<Tree>
  {
    var release :- ReleaseTree(info, stamp);
    Ok(Branch("releases", [release]))
  }

  /**
   * setReleases fails exactly when `name`, `version` or `core` is missing or
   * the version has no patch number; the failure raised is the first in the
   * order of the source.
   */
  lemma ReleasesTreeErrors(info: Info, stamp: Stamp)
    ensures ReleasesTree(info, stamp).Ok? <==>
      "name" in info && "version" in info && "core" in info && VersionPatch(info["version"]).Ok?
    ensures "name" !in info ==> ReleasesTree(info, stamp) == Err(KeyError("name"))
    ensures "name" in info && "version" !in info ==> ReleasesTree(info, stamp) == Err(KeyError("version"))
    ensures "name" in info && "version" in info && VersionPatch(info["version"]).Err? ==>
      ReleasesTree(info, stamp) == Err(IndexError)
    ensures "name" in info && "version" in info && VersionPatch(info["version"]).Ok? && "core" !in info ==>
      ReleasesTree(info, stamp) == Err(KeyError("core"))
  {
    if "version" in info {
      VersionMajorSpec(info["version"]);
      VersionPatchSpec(info["version"]);
    }
  }

  /**
   * The `releases` block holds one `release` of thirteen children: `name` is
   * the short name, a space and the version; `version` and `tag` are the
   * version; `version_major` and `version_patch` are its numbers; the
   * release-level `mdhash` and `filesize` repeat the file-level `md5` and
   * `size`; the last child is the block of release terms.
   */
  lemma ReleasesTreeShape(info: Info, stamp: Stamp)
    requires ReleasesTree(info, stamp).Ok?
    ensures var t := ReleasesTree(info, stamp).value;
      && t.tag == "releases" && t.attrib == map[] && |t.children| == 1
      && t.children[0].tag == "release" && |t.children[0].children| == 13
      && var kids, version := t.children[0].children, info["version"];
      && kids[0] == Leaf("name", ShortName(info["name"]) + " " + version)
      && kids[1] == Leaf("version", version) && kids[2] == Leaf("tag", version)
      && kids[3] == Leaf("version_major", VersionMajor(version).value)
      && kids[4] == Leaf("version_patch", VersionPatch(version).value)
      && kids[5] == Leaf("status", "published")
      && kids[9] == Leaf("mdhash", stamp.md5Hex) && kids[10] == Leaf("filesize", NatToString(stamp.size))
      && kids[11].tag == "files" && |kids[11].children| == 1 && |kids[11].children[0].children| == 5
      && kids[11].children[0].children[2] == Leaf("md5", kids[9].text.value)
      && kids[11].children[0].children[3] == Leaf("size", kids[10].text.value)
      && kids[12] == TermsTree(ReleaseTerms)
  {
  }

  /**
   * The release terms are three `term` elements, all named "Release type",
   * with the values "Security update", "Bug fixes" and "New features".
   */
  lemma ReleaseTermsShape()
    ensures var t := TermsTree(ReleaseTerms);
      && t.tag == "terms" && |t.children| == 3
      && (forall k :: 0 <= k < 3 ==> t.children[k] == Branch("term", [Leaf("name", "Release type"), Leaf("value", ReleaseTerms[k].1)]))
      && ReleaseTerms[0].1 == "Security update" && ReleaseTerms[1].1 == "Bug fixes"
      && ReleaseTerms[2].1 == "New features"
  {
  }

  /**
   * `setReleases(project, info)`: appends one `releases` element. The
   * elements are created in the order of the source, so when a text raises,
   * the `releases` element is already appended (with the elements created
   * so far) and the exception is returned.
   */
  method SetReleases(project: Element, info: Info, stamp: Stamp) returns (r: Result<()>, ghost fp: set<Element>)
    modifies project
    ensures project.tag == old(project.tag) && project.text == old(project.text)
    ensures project.attrib == old(project.attrib)
    ensures |project.children| == |old(project.children)| + 1
    ensures project.children[..|old(project.children)|] == old(project.children)
    ensures ReleasesTree(info, stamp).Err? ==> r == Err(ReleasesTree(info, stamp).error)
    ensures ReleasesTree(info, stamp).Ok? ==> r == Ok(()) && fresh(fp)
    ensures ReleasesTree(info, stamp).Ok? ==>
      Holds(project.children[|old(project.children)|], ReleasesTree(info, stamp).value, fp)
  {
    fp := {};
    var releases := SubElement(project, "releases");
    var release := SubElement(releases, "release");
    var filled, done := FillRelease(release, info, stamp);
    if filled.Err? {
      return filled, fp;
    }
    ghost var t := ReleaseTree(info, stamp).value;
    HoldsBranch(release, "release", t.children, done);
    Adopt([], [], {}, release, t, done + {release});
    HoldsBranch(releases, "releases", [t], done + {release});
    fp := done + {release} + {releases};
    r := Ok(());
  }

  /** The children of `release`, appended one step of setReleases at a time. */
  method FillRelease(release: Element, info: Info, stamp: Stamp) returns (r: Result<()>, ghost done: set<Element>)
    modifies release
    requires Building(release, [], {})
    ensures release.tag == old(release.tag) && release.text == old(release.text)
    ensures release.attrib == old(release.attrib)
    ensures ReleaseTree(info, stamp).Err? ==> r == Err(ReleaseTree(info, stamp).error)
    ensures ReleaseTree(info, stamp).Ok? ==> r == Ok(()) && fresh(done)
    ensures ReleaseTree(info, stamp).Ok? ==> Building(release, ReleaseTree(info, stamp).value.children, done)
  {
    done := {};
    var head, added1 := FillHead(release, info);
    if head.Err? {
      return Err(head.error), done;
    }
    var tail, added2 := FillTail(release, info, stamp, HeadChildren(head.value), added1);
    if tail.Err? {
      return tail, done;
    }
    done := added1 + added2;
    r := Ok(());
  }

  /** The children of `release` whose texts come from `info`. */
  method FillHead(release: Element, info: Info)
    returns (r: Result<(string, string, string, string)>, ghost added: set<Element>)
    modifies release
    requires Building(release, [], {})
    ensures release.tag == old(release.tag) && release.text == old(release.text)
    ensures release.attrib == old(release.attrib)
    ensures r == ReleaseFields(info)
    ensures r.Ok? ==> fresh(added) && Building(release, HeadChildren(r.value), added)
  {
    added := {};
    var head, added1 := AddNameTags(release, info, [], {});
    if head.Err? {
      return Err(head.error), added;
    }
    var name, version := head.value.0, head.value.1;
    ghost var kids: seq<Tree> := [];
    kids := kids + [Leaf("name", ShortName(name) + " " + version), Leaf("version", version), Leaf("tag", version)];
    var parts, added2 := AddVersionParts(release, version, kids, {} + added1);
    if parts.Err? {
      return Err(parts.error), added;
    }
    added := added1 + added2;
    assert {} + added1 + added2 == added;
    r := Ok((name, version, parts.value.0, parts.value.1));
  }

  /**
   * The children of `release` after the version numbers; only the `mdhash`
   * step can raise, when `info['core']` is missing.
   */
  method FillTail(release: Element, info: Info, stamp: Stamp, ghost kids: seq<Tree>, ghost done: set<Element>)
    returns (r: Result<()>, ghost added: set<Element>)
    modifies release
    requires Building(release, kids, done)
    ensures release.tag == old(release.tag) && release.text == old(release.text)
    ensures release.attrib == old(release.attrib)
    ensures r == (if "core" in info then Ok(()) else Err(KeyError("core")))
    ensures r.Ok? ==> fresh(added) && Building(release, kids + TailChildren(stamp), done + added)
  {
    added := {};
    ghost var added1 := AddLinks(release, stamp, kids, done);
    ghost var k1 := kids + [Leaf("status", Published), Leaf("release_link", ReleaseHistory),
                            Leaf("download_link", DownloadLink), Leaf("date", NatToString(stamp.date))];
    var digest, added2 := AddDigest(release, info, stamp, k1, done + added1);
    if digest.Err? {
      return digest, added;
    }
    ghost var k2 := k1 + [Leaf("mdhash", stamp.md5Hex), Leaf("filesize", NatToString(stamp.size))];
    ghost var added3 := AddFilesTerms(release, stamp, k2, done + added1 + added2);
    added := added1 + added2 + added3;
    assert k2 + [Branch("files", [FileTree(stamp)]), TermsTree(ReleaseTerms)] == kids + TailChildren(stamp);
    assert done + added1 + added2 + added3 == done + added;
    r := Ok(());
  }

  /**
   * `e` is not one of the objects in `done`, and its children so far look
   * like `kids` within `done`: the state of an element being filled in.
   */
  ghost predicate Building(e: Element, kids: seq<Tree>, done: set<Element>)
    reads e, done
  {
    e !in done && HoldsAll(e.children, kids, done)
  }

  /** `x = ET.SubElement(parent, tag); x.text = text` on an element being filled in. */
  method AppendLeaf(parent: Element, tag: string, text: string, ghost kids: seq<Tree>, ghost done: set<Element>)
    returns (e: Element)
    modifies parent
    requires Building(parent, kids, done)
    ensures parent.tag == old(parent.tag) && parent.text == old(parent.text)
    ensures parent.attrib == old(parent.attrib)
    ensures fresh(e) && Building(parent, kids + [Leaf(tag, text)], done + {e})
  {
    ghost var before := parent.children;
    e := AddLeaf(parent, tag, text);
    Adopt(before, kids, done, e, Leaf(tag, text), {e});
  }

  /**
   * The last child of `parent`, created before its text was computed, now
   * has that text and joins the finished children.
   */
  lemma FinishLeaf(parent: Element, kids: seq<Tree>, done: set<Element>, e: Element, tag: string, text: string)
    requires parent !in done && e !in done && parent != e
    requires |parent.children| > 0 && e == parent.children[|parent.children| - 1]
    requires HoldsAll(parent.children[..|parent.children| - 1], kids, done)
    requires e.tag == tag && e.text == Some(text) && e.attrib == map[] && e.children == []
    ensures Building(parent, kids + [Leaf(tag, text)], done + {e})
  {
    HoldsLeaf(e, tag, text);
    Adopt(parent.children[..|parent.children| - 1], kids, done, e, Leaf(tag, text), {e});
    assert parent.children[..|parent.children| - 1] + [e] == parent.children;
  }

  /**
   * The `name`, `version` and `tag` children of `release`; the `name`
   * element is created before `info['name']` and `info['version']` are
   * looked up.
   */
  method AddNameTags(release: Element, info: Info, ghost kids: seq<Tree>, ghost done: set<Element>)
    returns (r: Result<(string, string)>, ghost added: set<Element>)
    modifies release
    requires Building(release, kids, done)
    ensures release.tag == old(release.tag) && release.text == old(release.text)
    ensures release.attrib == old(release.attrib)
    ensures r.Ok? <==> "name" in info && "version" in info
    ensures "name" !in info ==> r == Err(KeyError("name"))
    ensures "name" in info && "version" !in info ==> r == Err(KeyError("version"))
    ensures r.Ok? ==> r.value == (info["name"], info["version"]) && fresh(added)
    ensures r.Ok? ==> Building(release, kids + [Leaf("name", ShortName(r.value.0) + " " + r.value.1),
                                                Leaf("version", r.value.1), Leaf("tag", r.value.1)], done + added)
  {
    added := {};
    ghost var before := release.children;
    var name := SubElement(release, "name");
    var nameR := Lookup(info, "name");
    if nameR.Err? {
      return Err(nameR.error), added;
    }
    var versionR := Lookup(info, "version");
    if versionR.Err? {
      return Err(versionR.error), added;
    }
    var version := versionR.value;
    var text := ShortName(nameR.value) + " " + version;
    name.text := Some(text);
    assert release.children[..|release.children| - 1] == before;
    FinishLeaf(release, kids, done, name, "name", text);
    ghost var k1, d1 := kids + [Leaf("name", text)], done + {name};
    var versionEl := AppendLeaf(release, "version", version, k1, d1);
    ghost var k2, d2 := k1 + [Leaf("version", version)], d1 + {versionEl};
    var tag := AppendLeaf(release, "tag", version, k2, d2);
    assert k2 + [Leaf("tag", version)]
        == kids + [Leaf("name", text), Leaf("version", version), Leaf("tag", version)];
    added := {name, versionEl, tag};
    assert d2 + {tag} == done + added;
    r := Ok((nameR.value, version));
  }

  /**
   * The `version_major` and `version_patch` children of `release`; each
   * element is created before its text is computed.
   */
  method AddVersionParts(release: Element, version: string, ghost kids: seq<Tree>, ghost done: set<Element>)
    returns (r: Result<(string, string)>, ghost added: set<Element>)
    modifies release
    requires Building(release, kids, done)
    ensures release.tag == old(release.tag) && release.text == old(release.text)
    ensures release.attrib == old(release.attrib)
    ensures r.Ok? <==> VersionMajor(version).Ok? && VersionPatch(version).Ok?
    ensures VersionMajor(version).Err? ==> r == Err(VersionMajor(version).error)
    ensures VersionMajor(version).Ok? && VersionPatch(version).Err? ==> r == Err(VersionPatch(version).error)
    ensures r.Ok? ==> r.value == (VersionMajor(version).value, VersionPatch(version).value) && fresh(added)
    ensures r.Ok? ==> Building(release, kids + [Leaf("version_major", r.value.0), Leaf("version_patch", r.value.1)],
                               done + added)
  {
    added := {};
    var majorR := VersionMajor(version);
    ghost var added1 := AppendComputed(release, "version_major", majorR, kids, done);
    if majorR.Err? {
      return Err(majorR.error), added;
    }
    ghost var k1, d1 := kids + [Leaf("version_major", majorR.value)], done + added1;
    var patchR := VersionPatch(version);
    ghost var added2 := AppendComputed(release, "version_patch", patchR, k1, d1);
    if patchR.Err? {
      return Err(patchR.error), added;
    }
    added := added1 + added2;
    assert d1 + added2 == done + added;
    r := Ok((majorR.value, patchR.value));
  }

  /**
   * `x = ET.SubElement(parent, tag); x.text = <text>` where computing the
   * text may raise: the element is appended first, and gets its text only
   * when the computation succeeds.
   */
  method AppendComputed(parent: Element, tag: string, text: Result<string>, ghost kids: seq<Tree>,
                        ghost done: set<Element>) returns (ghost added: set<Element>)
    modifies parent
    requires Building(parent, kids, done)
    ensures parent.tag == old(parent.tag) && parent.text == old(parent.text)
    ensures parent.attrib == old(parent.attrib)
    ensures |parent.children| == |old(parent.children)| + 1
    ensures parent.children[..|old(parent.children)|] == old(parent.children)
    ensures var e := parent.children[|old(parent.children)|];
      && e.tag == tag && e.attrib == map[] && e.children == []
      && e.text == (if text.Ok? then Some(text.value) else None)
    ensures text.Ok? ==> fresh(added) && Building(parent, kids + [Leaf(tag, text.value)], done + added)
  {
    added := {};
    ghost var before := parent.children;
    var e := SubElement(parent, tag);
    if text.Ok? {
      e.text := Some(text.value);
      assert parent.children[..|parent.children| - 1] == before;
      FinishLeaf(parent, kids, done, e, tag, text.value);
      added := {e};
    }
  }

  /** The `status`, `release_link`, `download_link` and `date` children of `release`. */
  method AddLinks(release: Element, stamp: Stamp, ghost kids: seq<Tree>, ghost done: set<Element>)
    returns (ghost added: set<Element>)
    modifies release
    requires Building(release, kids, done)
    ensures release.tag == old(release.tag) && release.text == old(release.text)
    ensures release.attrib == old(release.attrib)
    ensures fresh(added)
    ensures Building(release, kids + [Leaf("status", Published), Leaf("release_link", ReleaseHistory),
                                      Leaf("download_link", DownloadLink), Leaf("date", NatToString(stamp.date))],
                     done + added)
  {
    var status := AppendLeaf(release, "status", Published, kids, done);
    ghost var k1, d1 := kids + [Leaf("status", Published)], done + {status};
    var releaseLink := AppendLeaf(release, "release_link", ReleaseHistory, k1, d1);
    ghost var k2, d2 := k1 + [Leaf("release_link", ReleaseHistory)], d1 + {releaseLink};
    var downloadLink := AppendLeaf(release, "download_link", DownloadLink, k2, d2);
    ghost var k3, d3 := k2 + [Leaf("download_link", DownloadLink)], d2 + {downloadLink};
    var date := AppendLeaf(release, "date", NatToString(stamp.date), k3, d3);
    assert k3 + [Leaf("date", NatToString(stamp.date))]
        == kids + [Leaf("status", Published), Leaf("release_link", ReleaseHistory),
                   Leaf("download_link", DownloadLink), Leaf("date", NatToString(stamp.date))];
    added := {status, releaseLink, downloadLink, date};
    assert d3 + {date} == done + added;
  }

  /**
   * The `mdhash` and `filesize` children of `release`. The `mdhash` element
   * is created before `info['core']` names the archive whose digest it holds.
   */
  method AddDigest(release: Element, info: Info, stamp: Stamp, ghost kids: seq<Tree>, ghost done: set<Element>)
    returns (r: Result<()>, ghost added: set<Element>)
    modifies release
    requires Building(release, kids, done)
    ensures release.tag == old(release.tag) && release.text == old(release.text)
    ensures release.attrib == old(release.attrib)
    ensures r.Ok? <==> "core" in info
    ensures r.Err? ==> r == Err(KeyError("core"))
    ensures r.Err? ==>
      && |release.children| == |old(release.children)| + 1
      && release.children[..|old(release.children)|] == old(release.children)
      && var mdhash := release.children[|old(release.children)|];
      && mdhash.tag == "mdhash" && mdhash.text == None && mdhash.attrib == map[] && mdhash.children == []
    ensures r.Ok? ==> fresh(added)
    ensures r.Ok? ==> Building(release, kids + [Leaf("mdhash", stamp.md5Hex), Leaf("filesize", NatToString(stamp.size))],
                               done + added)
  {
    added := {};
    var digest := Digest(info, stamp);
    ghost var added1 := AppendComputed(release, "mdhash", digest, kids, done);
    if digest.Err? {
      return Err(digest.error), added;
    }
    ghost var k1, d1 := kids + [Leaf("mdhash", stamp.md5Hex)], done + added1;
    var filesize := AppendLeaf(release, "filesize", NatToString(stamp.size), k1, d1);
    added := added1 + {filesize};
    assert d1 + {filesize} == done + added;
    r := Ok(());
  }

  /**
   * The text of `mdhash`: the digest of the archive `../<core>.tar.gz`, which
   * needs `info['core']` to name the archive.
   */
  function Digest(info: Info, stamp: Stamp): (r: Result<string>)
    ensures r.Ok? <==> "core" in info
    ensures r.Ok? ==> r.value == stamp.md5Hex
    ensures r.Err? ==> r.error == KeyError("core")
  {
    var core :- Lookup(info, "core");
    Ok(stamp.md5Hex)
  }

  /** The `files` and `terms` children of `release`. */
  method AddFilesTerms(release: Element, stamp: Stamp, ghost kids: seq<Tree>, ghost done: set<Element>)
    returns (ghost added: set<Element>)
    modifies release
    requires Building(release, kids, done)
    ensures release.tag == old(release.tag) && release.text == old(release.text)
    ensures release.attrib == old(release.attrib)
    ensures fresh(added)
    ensures Building(release, kids + [Branch("files", [FileTree(stamp)]), TermsTree(ReleaseTerms)], done + added)
  {
    ghost var before := release.children;
    var files, filesFp := AddFiles(release, stamp);
    Adopt(before, kids, done, files, Branch("files", [FileTree(stamp)]), filesFp);
    ghost var k1, d1 := kids + [Branch("files", [FileTree(stamp)])], done + filesFp;
    before := release.children;
    var terms, termsFp := AddTermsBlock(release, ReleaseTerms);
    Adopt(before, k1, d1, terms, TermsTree(ReleaseTerms), termsFp);
    added := filesFp + termsFp;
    assert d1 + termsFp == done + added;
  }

  /** `files = ET.SubElement(release, "files")` and its one `file` child. */
  method AddFiles(release: Element, stamp: Stamp) returns (files: Element, ghost sub: set<Element>)
    modifies release
    ensures release.tag == old(release.tag) && release.text == old(release.text)
    ensures release.attrib == old(release.attrib)
    ensures release.children == old(release.children) + [files]
    ensures fresh(sub)
    ensures Holds(files, Branch("files", [FileTree(stamp)]), sub)
  {
    files := SubElement(release, "files");
    var file, fileFp := AddFile(files, stamp);
    Adopt([], [], {}, file, FileTree(stamp), fileFp);
    HoldsBranch(files, "files", [FileTree(stamp)], fileFp);
    sub := fileFp + {files};
  }

  /** `file = ET.SubElement(files, "file")` and the five leaves of that file. */
  method AddFile(files: Element, stamp: Stamp) returns (file: Element, ghost sub: set<Element>)
    modifies files
    ensures files.tag == old(files.tag) && files.text == old(files.text)
    ensures files.attrib == old(files.attrib)
    ensures files.children == old(files.children) + [file]
    ensures fresh(sub)
    ensures Holds(file, FileTree(stamp), sub)
  {
    file := SubElement(files, "file");
    var leaves := AddLeaves(file, FileFields(stamp));
    assert file.children[0..] == file.children;
    HoldsBranch(file, "file", Leaves(FileFields(stamp)), leaves);
    sub := leaves + {file};
  }
}
