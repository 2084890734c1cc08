/**
 * The pure core of drush_module.py and the assembly of the descriptor file:
 *
 * - `getInfo`: the text of the module's `.info` file becomes a key/value map;
 * - `getTagList`: the branch listing becomes the list of tags matching
 *   `\b[6-8]\.x\S*`, found by a scanner for that one pattern;
 * - `writeInfoToXML`: the descriptor file name and the `project` tree built
 *   by the three builders of create_xml.py.
 *
 * The `git` calls, the file system, the digest, the size and the clock are
 * not modelled: their results are parameters.
 */
module DrushModule {
  import opened Wrappers
  import opened Strings
  import opened Xml
  import opened CreateXml

  // ---------------------------------------------------------------------------
  // getInfo: parsing the .info file
  // ---------------------------------------------------------------------------

  /** What separates a key from its value on a line of the `.info` file. */
  const Separator := " = "

  /** `list(filter(None, parts))`: the non-empty strings, in their order. */
  function NonEmpty(parts: seq<string>): (r: seq<string>)
    ensures |r| <= |parts|
    ensures forall l :: l in r <==> l in parts && l != []
  {
    if parts == [] then []
    else if parts[0] == [] then NonEmpty(parts[1..])
    else [parts[0]] + NonEmpty(parts[1..])
  }

  /**
   * Filtering works piece by piece: the lines kept from `a + b` are those
   * kept from `a` followed by those kept from `b`, so the order of the file
   * is kept.
   */
  lemma {:induction false} NonEmptyConcat(a: seq<string>, b: seq<string>)
    ensures NonEmpty(a + b) == NonEmpty(a) + NonEmpty(b)
    decreases |a|
  {
    if a == [] {
      assert a + b == b;
    } else {
      assert (a + b)[0] == a[0];
      assert (a + b)[1..] == a[1..] + b;
      NonEmptyConcat(a[1..], b);
      if a[0] != [] {
        assert NonEmpty(a + b) == [a[0]] + NonEmpty(a[1..] + b);
        assert [a[0]] + (NonEmpty(a[1..]) + NonEmpty(b)) == ([a[0]] + NonEmpty(a[1..])) + NonEmpty(b);
      }
    }
  }

  /** One line is kept exactly when it is not empty. */
  lemma NonEmptySingle(l: string)
    ensures NonEmpty([l]) == (if l == [] then [] else [l])
  {
    assert [l][1..] == [];
  }

  /** `file.read().split("\n")` with the empty lines dropped. */
  function Lines(text: string): seq<string>
  {
    NonEmpty(Split(text, "\n"))
  }

  /**
   * The lines are the non-empty pieces of the text between line breaks; none
   * of them holds a line break.
   */
  lemma LinesSpec(text: string)
    ensures forall l :: l in Lines(text) <==> l in Split(text, "\n") && l != []
    ensures forall l :: l in Lines(text) ==> l != [] && '\n' !in l
  {
    SplitPiecesFree(text, "\n");
    forall l | l in Lines(text)
      ensures '\n' !in l
    {
      ContainsChar(l, '\n');
    }
  }

  /** `line.split(" = ")[0].replace('"', "")`: the key of a line. */
  function Key(line: string): (k: string)
    ensures '"' !in k
  {
    RemoveAll(Split(line, Separator)[0], '"')
  }

  /** `line.split(" = ")[1].replace('"', "")`: the value of a line that has a separator. */
  function Value(line: string): (v: string)
    requires Contains(line, Separator)
    ensures '"' !in v
  {
    SplitSecond(line, Separator);
    RemoveAll(Split(line, Separator)[1], '"')
  }

  /**
   * One entry of the dict comprehension: the key, then the value, whose
   * `[1]` raises IndexError on a line without the separator.
   */
  function ParseLine(line: string): (r: Result<(string, string)>)
    ensures r.Ok? <==> Contains(line, Separator)
    ensures r.Err? ==> r.error == IndexError
    ensures r.Ok? ==> r.value == (Key(line), Value(line))
  {
    SplitSecond(line, Separator);
    if |Split(line, Separator)| < 2 then Err(IndexError) else Ok((Key(line), Value(line)))
  }

  /**
   * The key is the text before the first separator (the whole line when
   * there is none) and the value the text between the first separator and
   * the next one (or the end), both without double quotes.
   */
  lemma KeyValueSpec(line: string)
    ensures !Contains(line, Separator) ==> Key(line) == RemoveAll(line, '"')
    ensures Contains(line, Separator) ==>
      var i := Find(line, Separator).value;
      var rest := line[i + |Separator|..];
      var j := match Find(rest, Separator) case Some(j) => j case None => |rest|;
      && Key(line) == RemoveAll(line[..i], '"')
      && Value(line) == RemoveAll(rest[..j], '"')
  {
    if Contains(line, Separator) {
      var i := Find(line, Separator).value;
      var rest := line[i + |Separator|..];
      assert Split(line, Separator) == [line[..i]] + Split(rest, Separator);
      if Find(rest, Separator).None? {
        assert rest[..|rest|] == rest;
      }
    }
  }

  /**
   * The dict comprehension over the lines, from left to right: each line sets
   * its key, so a later line overwrites an earlier one with the same key.
   */
  function Collect(lines: seq<string>, acc: Info): Result<Info>
    decreases |lines|
  {
    if lines == [] then Ok(acc)
    else
      var entry :- ParseLine(lines[0]);
      Collect(lines[1..], acc[entry.0 := entry.1])
  }

  /** `getInfo`, less the `git checkout` around it: the map the `.info` text describes. */
  function ParseInfo(text: string): Result<Info>
  {
    Collect(Lines(text), map[])
  }

  /** No line after line `i` has the same key. */
  predicate LastOfKey(lines: seq<string>, i: int)
    requires 0 <= i < |lines|
  {
    forall j :: i < j < |lines| ==> Key(lines[j]) != Key(lines[i])
  }

  /**
   * The comprehension succeeds exactly when every line has a separator, and
   * raises IndexError otherwise.
   */
  lemma {:induction false} CollectOk(lines: seq<string>, acc: Info)
    ensures Collect(lines, acc).Ok? <==> forall l :: l in lines ==> Contains(l, Separator)
    ensures Collect(lines, acc).Err? ==> Collect(lines, acc).error == IndexError
    decreases |lines|
  {
    if lines != [] {
      var head, tail := lines[0], lines[1..];
      assert forall l :: l in lines <==> l == head || l in tail;
      if Contains(head, Separator) {
        CollectOk(tail, acc[Key(head) := Value(head)]);
      }
    }
  }

  /** The keys of the result are those of `acc` and those of the lines. */
  lemma {:induction false} CollectKeys(lines: seq<string>, acc: Info)
    requires Collect(lines, acc).Ok?
    ensures forall k :: k in Collect(lines, acc).value <==> k in acc || exists l :: l in lines && Key(l) == k
    decreases |lines|
  {
    if lines != [] {
      var head, tail := lines[0], lines[1..];
      assert forall l :: l in lines <==> l == head || l in tail;
      CollectKeys(tail, acc[Key(head) := Value(head)]);
    }
  }

  /** A key that no line has keeps its value in `acc`. */
  lemma {:induction false} CollectKeeps(lines: seq<string>, acc: Info, k: string)
    requires Collect(lines, acc).Ok?
    requires k in acc && forall l :: l in lines ==> Key(l) != k
    ensures k in Collect(lines, acc).value && Collect(lines, acc).value[k] == acc[k]
    decreases |lines|
  {
    if lines != [] {
      var head, tail := lines[0], lines[1..];
      assert head in lines;
      assert forall l :: l in tail ==> l in lines;
      CollectKeeps(tail, acc[Key(head) := Value(head)], k);
    }
  }

  /** A key takes the value of the last line that has it. */
  lemma {:induction false} CollectLast(lines: seq<string>, acc: Info, i: int)
    requires Collect(lines, acc).Ok?
    requires 0 <= i < |lines| && LastOfKey(lines, i)
    ensures Contains(lines[i], Separator)
    ensures Key(lines[i]) in Collect(lines, acc).value
    ensures Collect(lines, acc).value[Key(lines[i])] == Value(lines[i])
    decreases |lines|
  {
    CollectOk(lines, acc);
    var head, tail := lines[0], lines[1..];
    var acc' := acc[Key(head) := Value(head)];
    assert Collect(lines, acc) == Collect(tail, acc');
    if i > 0 {
      assert lines[i] == tail[i - 1];
      assert LastOfKey(tail, i - 1) by {
        forall j | i - 1 < j < |tail|
          ensures Key(tail[j]) != Key(tail[i - 1])
        {
          assert tail[j] == lines[j + 1];
        }
      }
      CollectLast(tail, acc', i - 1);
    } else {
      forall l | l in tail
        ensures Key(l) != Key(head)
      {
        var j :| 0 <= j < |tail| && tail[j] == l;
        assert lines[j + 1] == l;
      }
      CollectKeeps(tail, acc', Key(head));
    }
  }

  /**
   * `getInfo` succeeds exactly when every non-empty line has a separator, and
   * raises IndexError otherwise.
   */
  lemma ParseInfoOk(text: string)
    ensures ParseInfo(text).Ok? <==> forall l :: l in Lines(text) ==> Contains(l, Separator)
    ensures ParseInfo(text).Err? ==> ParseInfo(text).error == IndexError
  {
    CollectOk(Lines(text), map[]);
  }

  /** The keys of the map are exactly the keys of the lines. */
  lemma ParseInfoKeys(text: string)
    requires ParseInfo(text).Ok?
    ensures forall k :: k in ParseInfo(text).value <==> exists l :: l in Lines(text) && Key(l) == k
  {
    CollectKeys(Lines(text), map[]);
  }

  /** When several lines have the same key, the last of them gives the value. */
  lemma ParseInfoLastWins(text: string, i: int)
    requires ParseInfo(text).Ok?
    requires 0 <= i < |Lines(text)| && LastOfKey(Lines(text), i)
    ensures Contains(Lines(text)[i], Separator)
    ensures Key(Lines(text)[i]) in ParseInfo(text).value
    ensures ParseInfo(text).value[Key(Lines(text)[i])] == Value(Lines(text)[i])
  {
    CollectLast(Lines(text), map[], i);
  }

  /** Neither the keys nor the values of the map hold a double quote. */
  lemma ParseInfoQuoteFree(text: string)
    requires ParseInfo(text).Ok?
    ensures forall k :: k in ParseInfo(text).value ==> '"' !in k && '"' !in ParseInfo(text).value[k]
  {
    var lines := Lines(text);
    var m := ParseInfo(text).value;
    CollectKeys(lines, map[]);
    forall k | k in m
      ensures '"' !in k && '"' !in m[k]
    {
      var l :| l in lines && Key(l) == k;
      var i :| 0 <= i < |lines| && lines[i] == l;
      var last := LastLineOfKey(lines, i);
      CollectLast(lines, map[], last);
    }
  }

  /** The last line at or after line `i` whose key is that of line `i`. */
  lemma LastLineOfKey(lines: seq<string>, i: int) returns (last: int)
    requires 0 <= i < |lines|
    ensures i <= last < |lines| && Key(lines[last]) == Key(lines[i]) && LastOfKey(lines, last)
    decreases |lines| - i
  {
    if j :| i < j < |lines| && Key(lines[j]) == Key(lines[i]) {
      last := LastLineOfKey(lines, j);
    } else {
      last := i;
    }
  }

  // ---------------------------------------------------------------------------
  // getTagList: re.findall(r"\b[6-8]\.x\S*", tags)
  // ---------------------------------------------------------------------------

  /**
   * `\b[6-8]\.x` matches at `i`: a `6`, `7` or `8`, then `.x`, at the start
   * of the text or after a character that is not a word character.
   */
  predicate StartsTag(s: string, i: nat) {
    && i + 3 <= |s|
    && '6' <= s[i] <= '8' && s[i + 1] == '.' && s[i + 2] == 'x'
    && (i == 0 || !IsWordChar(s[i - 1]))
  }

  /** Where the greedy `\S*` that starts at `j` stops: the next whitespace, or the end. */
  function RunEnd(s: string, j: nat): (e: nat)
    requires j <= |s|
    ensures j <= e <= |s|
    ensures forall k :: j <= k < e ==> !IsSpace(s[k])
    ensures e < |s| ==> IsSpace(s[e])
    decreases |s| - j
  {
    if j == |s| || IsSpace(s[j]) then j else RunEnd(s, j + 1)
  }

  /** A match of the pattern: the text `s[start..end]`. */
  datatype Span = Span(start: nat, end: nat)

  /** `m` is a match: the pattern starts at `m.start` and `\S*` runs to `m.end`. */
  predicate IsMatch(s: string, m: Span) {
    StartsTag(s, m.start) && m.end == RunEnd(s, m.start + 3)
  }

  /**
   * The scan of `re.findall` from position `from`: where the pattern
   * matches, the match is taken and the scan resumes at its end; elsewhere
   * the scan moves on by one character.
   */
  function Matches(s: string, from: nat): seq<Span>
    requires from <= |s|
    decreases |s| - from
  {
    if from == |s| then []
    else if StartsTag(s, from) then
      var e := RunEnd(s, from + 3);
      [Span(from, e)] + Matches(s, e)
    else Matches(s, from + 1)
  }

  /**
   * Every span the scan returns is a match at or after `from`, and the
   * matches come in the order of the text without overlapping.
   */
  lemma {:induction false} MatchesSound(s: string, from: nat)
    requires from <= |s|
    ensures forall k :: 0 <= k < |Matches(s, from)| ==>
      from <= Matches(s, from)[k].start && IsMatch(s, Matches(s, from)[k])
    ensures forall k :: 0 < k < |Matches(s, from)| ==> Matches(s, from)[k - 1].end <= Matches(s, from)[k].start
    decreases |s| - from
  {
    if from < |s| {
      if StartsTag(s, from) {
        var e := RunEnd(s, from + 3);
        MatchesSound(s, e);
        var ms, rest := Matches(s, from), Matches(s, e);
        assert ms == [Span(from, e)] + rest;
        assert IsMatch(s, ms[0]);
        forall k | 0 < k < |ms|
          ensures from <= ms[k].start && IsMatch(s, ms[k]) && ms[k - 1].end <= ms[k].start
        {
          assert ms[k] == rest[k - 1];
          if k > 1 {
            assert ms[k - 1] == rest[k - 2];
          }
        }
      } else {
        MatchesSound(s, from + 1);
        assert Matches(s, from) == Matches(s, from + 1);
      }
    }
  }

  /**
   * Nothing is skipped: every position at or after `from` where the pattern
   * could start lies inside one of the matches (the match that starts there,
   * or an earlier one that swallowed it).
   */
  lemma {:induction false} MatchesComplete(s: string, from: nat, q: nat)
    requires from <= q < |s| && StartsTag(s, q)
    ensures exists k :: 0 <= k < |Matches(s, from)| && Matches(s, from)[k].start <= q < Matches(s, from)[k].end
    decreases |s| - from
  {
    var ms := Matches(s, from);
    if StartsTag(s, from) {
      var e := RunEnd(s, from + 3);
      assert ms == [Span(from, e)] + Matches(s, e);
      if q < e {
        assert ms[0].start <= q < ms[0].end;
      } else {
        MatchesComplete(s, e, q);
        var k :| 0 <= k < |Matches(s, e)| && Matches(s, e)[k].start <= q < Matches(s, e)[k].end;
        assert ms[k + 1] == Matches(s, e)[k];
      }
    } else {
      assert q != from;
      MatchesComplete(s, from + 1, q);
    }
  }

  /**
   * `re.findall(r"\b[6-8]\.x\S*", s)`: the text of every match, in order.
   * Each tag starts with `6.x`, `7.x` or `8.x` and holds no whitespace.
   */
  function FindAll(s: string): (tags: seq<string>)
    ensures |tags| == |Matches(s, 0)|
    ensures forall k :: 0 <= k < |tags| ==>
      && |tags[k]| >= 3 && '6' <= tags[k][0] <= '8' && tags[k][1] == '.' && tags[k][2] == 'x'
      && forall c :: c in tags[k] ==> !IsSpace(c)
  {
    var ms := Matches(s, 0);
    MatchesSound(s, 0);
    seq(|ms|, k requires 0 <= k < |ms| => s[ms[k].start..ms[k].end])
  }

  /**
   * Every tag is a maximal match: it is preceded by the start of the text or
   * a character that is not a word character, and followed by whitespace or
   * the end of the text; the tags come in the order of the text and do not
   * overlap; and every place where the pattern starts is inside one of them.
   */
  lemma FindAllSpec(s: string)
    ensures var ms := Matches(s, 0);
      && (forall k :: 0 <= k < |ms| ==>
            && IsMatch(s, ms[k])
            && FindAll(s)[k] == s[ms[k].start..ms[k].end]
            && (ms[k].start == 0 || !IsWordChar(s[ms[k].start - 1]))
            && (ms[k].end == |s| || IsSpace(s[ms[k].end])))
      && (forall k :: 0 < k < |ms| ==> ms[k - 1].end <= ms[k].start)
      && (forall q :: 0 <= q < |s| && StartsTag(s, q) ==>
            exists k :: 0 <= k < |ms| && ms[k].start <= q < ms[k].end)
  {
    MatchesSound(s, 0);
    forall q | 0 <= q < |s| && StartsTag(s, q)
      ensures exists k :: 0 <= k < |Matches(s, 0)| && Matches(s, 0)[k].start <= q < Matches(s, 0)[k].end
    {
      MatchesComplete(s, 0, q);
    }
  }

  /**
   * `getTagList`, less the `git branch` call: the listing is stripped, a
   * listing equal to " " or "\n" gives no tags, and otherwise the tags are
   * those `findall` returns.
   */
  function TagList(listing: string): seq<string>
  {
    var stripped := Strip(listing);
    if stripped == " " || stripped == "\n" then [] else FindAll(stripped)
  }

  /**
   * The guard of getTagList never fires: a stripped text is never " " or
   * "\n", so the tags are always those of the stripped listing.
   */
  lemma TagListGuard(listing: string)
    ensures Strip(listing) != " " && Strip(listing) != "\n"
    ensures TagList(listing) == FindAll(Strip(listing))
  {
    StripEdges(listing);
  }

  /** A listing that is empty or only whitespace gives no tags. */
  lemma TagListBlank(listing: string)
    requires forall i :: 0 <= i < |listing| ==> IsSpace(listing[i])
    ensures TagList(listing) == []
  {
    StripBlank(listing);
  }

  /**
   * Stripping the listing changes nothing: the tags of getTagList are those
   * of `findall` on the listing as `git branch` printed it.
   */
  lemma TagListIgnoresStrip(listing: string)
    ensures TagList(listing) == FindAll(listing)
  {
    TagListGuard(listing);
    StripSlice(listing);
    FindAllWindow(listing, Strip(listing), |listing| - |StripStart(listing)|);
  }

  /**
   * A text `t` found in `s` at offset `a`, with only whitespace around it,
   * has the same tags as `s`.
   */
  lemma FindAllWindow(s: string, t: string, a: nat)
    requires a + |t| <= |s| && t == s[a..a + |t|]
    requires forall i :: 0 <= i < a ==> IsSpace(s[i])
    requires forall i :: a + |t| <= i < |s| ==> IsSpace(s[i])
    ensures FindAll(s) == FindAll(t)
  {
    MatchesSkip(s, 0, a);
    MatchesShift(s, t, a, 0);
    var ms, mt := Matches(s, 0), Matches(t, 0);
    forall k | 0 <= k < |mt|
      ensures FindAll(s)[k] == FindAll(t)[k]
    {
      assert ms[k] == Span(mt[k].start + a, mt[k].end + a);
      FindAllAt(s, k);
      FindAllAt(t, k);
      SliceWithin(s, t, a, mt[k].start, mt[k].end);
    }
  }

  /** The `k`-th tag is the text of the `k`-th match. */
  lemma FindAllAt(s: string, k: int)
    requires 0 <= k < |Matches(s, 0)|
    ensures IsMatch(s, Matches(s, 0)[k])
    ensures FindAll(s)[k] == s[Matches(s, 0)[k].start..Matches(s, 0)[k].end]
  {
    MatchesSound(s, 0);
  }

  /** A slice of `t`, read in `s` where `t` sits at offset `a`. */
  lemma SliceWithin(s: string, t: string, a: nat, x: nat, y: nat)
    requires a + |t| <= |s| && t == s[a..a + |t|] && x <= y <= |t|
    ensures s[a + x..a + y] == t[x..y]
  {
    forall i | 0 <= i < y - x
      ensures s[a + x..a + y][i] == t[x..y][i]
    {
      assert s[a + x + i] == t[x + i];
    }
  }

  /** The spans `ms`, moved `a` characters to the right. */
  function Shift(ms: seq<Span>, a: nat): (r: seq<Span>)
    ensures |r| == |ms|
    ensures forall k :: 0 <= k < |ms| ==> r[k] == Span(ms[k].start + a, ms[k].end + a)
  {
    seq(|ms|, k requires 0 <= k < |ms| => Span(ms[k].start + a, ms[k].end + a))
  }

  /** Whitespace holds no match, and the scan passes over it. */
  lemma {:induction false} MatchesSkip(s: string, from: nat, to: nat)
    requires from <= to <= |s| && forall i :: from <= i < to ==> IsSpace(s[i])
    ensures Matches(s, from) == Matches(s, to)
    decreases |s| - from
  {
    if from < to {
      MatchesSkip(s, from + 1, to);
    }
  }

  /**
   * Inside `s`, the text `t` starting at `a` and followed by whitespace or
   * the end of `s`: the run of `\S` from a position of `t` ends at the same
   * place in both.
   */
  lemma {:induction false} RunEndShift(s: string, t: string, a: nat, j: nat)
    requires a + |t| <= |s| && t == s[a..a + |t|] && j <= |t|
    requires a + |t| == |s| || IsSpace(s[a + |t|])
    ensures RunEnd(s, a + j) == a + RunEnd(t, j)
    decreases |t| - j
  {
    if j < |t| {
      assert s[a + j] == t[j];
      RunEndShift(s, t, a, j + 1);
    }
  }

  /**
   * The scan of `s` from inside `t`, where `t` sits between whitespace (or
   * the ends of `s`) at offset `a`, finds the matches of `t`, moved by `a`.
   */
  lemma {:induction false} MatchesShift(s: string, t: string, a: nat, j: nat)
    requires a + |t| <= |s| && t == s[a..a + |t|] && j <= |t|
    requires forall i :: 0 <= i < a ==> IsSpace(s[i])
    requires forall i :: a + |t| <= i < |s| ==> IsSpace(s[i])
    ensures Matches(s, a + j) == Shift(Matches(t, j), a)
    decreases |t| - j
  {
    if j == |t| {
      MatchesSkip(s, a + |t|, |s|);
      assert Matches(s, |s|) == [] && Matches(t, j) == [];
      assert Shift([], a) == [];
    } else {
      StartsTagShift(s, t, a, j);
      if StartsTag(t, j) {
        var e := RunEnd(t, j + 3);
        RunEndShift(s, t, a, j + 3);
        MatchesShift(s, t, a, e);
        MatchStepShift(s, t, a, j, e);
      } else {
        MatchesShift(s, t, a, j + 1);
        assert Matches(s, a + j) == Matches(s, a + j + 1);
        assert Matches(t, j) == Matches(t, j + 1);
      }
    }
  }

  /** One match taken in both scans: the shifted scans stay in step. */
  lemma MatchStepShift(s: string, t: string, a: nat, j: nat, e: nat)
    requires j < |t| && a + |t| <= |s| && StartsTag(t, j) && StartsTag(s, a + j)
    requires e == RunEnd(t, j + 3) && RunEnd(s, a + j + 3) == a + e
    requires Matches(s, a + e) == Shift(Matches(t, e), a)
    ensures Matches(s, a + j) == Shift(Matches(t, j), a)
  {
    calc {
      Matches(s, a + j);
      { MatchesTake(s, a + j); }
      [Span(a + j, a + e)] + Matches(s, a + e);
      [Span(a + j, a + e)] + Shift(Matches(t, e), a);
      { ShiftCons(Span(j, e), Matches(t, e), a); }
      Shift([Span(j, e)] + Matches(t, e), a);
      { MatchesTake(t, j); }
      Shift(Matches(t, j), a);
    }
  }

  /** Where the pattern starts, the scan takes the match and resumes at its end. */
  lemma MatchesTake(s: string, from: nat)
    requires from < |s| && StartsTag(s, from)
    ensures Matches(s, from) == [Span(from, RunEnd(s, from + 3))] + Matches(s, RunEnd(s, from + 3))
  {
  }

  /** Inside `t`, the pattern starts where it starts in `s`. */
  lemma StartsTagShift(s: string, t: string, a: nat, j: nat)
    requires a + |t| <= |s| && t == s[a..a + |t|] && j < |t|
    requires a == 0 || IsSpace(s[a - 1])
    requires a + |t| == |s| || IsSpace(s[a + |t|])
    ensures StartsTag(s, a + j) <==> StartsTag(t, j)
  {
    var b := a + |t|;
    assert s[a + j] == t[j];
    if j + 1 < |t| { assert s[a + j + 1] == t[j + 1]; }
    if j + 2 < |t| { assert s[a + j + 2] == t[j + 2]; }
    if j > 0 { assert s[a + j - 1] == t[j - 1]; }
  }

  /** Moving a match followed by others moves each of them. */
  lemma ShiftCons(m: Span, ms: seq<Span>, a: nat)
    ensures Shift([m] + ms, a) == [Span(m.start + a, m.end + a)] + Shift(ms, a)
  {
    var l, r := Shift([m] + ms, a), [Span(m.start + a, m.end + a)] + Shift(ms, a);
    assert |l| == |r|;
    forall k | 0 <= k < |l|
      ensures l[k] == r[k]
    {
      if k > 0 {
        assert ([m] + ms)[k] == ms[k - 1];
      }
    }
  }

  // ---------------------------------------------------------------------------
  // writeInfoToXML
  // ---------------------------------------------------------------------------

  /** The XML declaration written before the tree. */
  const Header := "<?xml version=\"1.0\" encoding=\"UTF-8\"?>"

  /** The Dublin Core namespace the `project` element declares. */
  const DcNamespace := "http://purl.org/dc/elements/1.1/"

  /** `info['core'] + '.xml'`: the descriptor is named after the core version. */
  function FileName(info: Info): (r: Result<string>)
    ensures r.Ok? <==> "core" in info
    ensures r.Err? ==> r.error == KeyError("core")
    ensures r.Ok? ==> |r.value| == |info["core"]| + 4
    ensures r.Ok? ==> r.value[..|info["core"]|] == info["core"] && r.value[|info["core"]|..] == ".xml"
  {
    var core :- Lookup(info, "core");
    Ok(core + ".xml")
  }

  /**
   * The `project` tree: the namespace attribute, then the title leaves, the
   * terms and the releases; or the first exception setTitle or setReleases
   * raises.
   */
  function ProjectTree(info: Info, stamp: Stamp): Result<Tree>
  {
    var fields :- TitleFields(info);
    var releases :- ReleasesTree(info, stamp);
    Ok(Tree("project", None, map["xmlns:dc" := DcNamespace],
            Leaves(fields) + [TermsTree(ProjectTerms), releases]))
  }

  /**
   * A descriptor file: its name, the header written first, and the tree
   * written after it (none when a builder raised after the file was opened).
   */
  datatype Descriptor = Descriptor(fileName: string, header: string, document: Option<Tree>)

  /**
   * What writeInfoToXML leaves behind: a complete descriptor, or the
   * exception it raised with the file it had created before (if any).
   */
  datatype Outcome =
    | Written(file: Descriptor)
    | Failed(error: Error, partial: Option<Descriptor>)

  /**
   * `writeInfoToXML` as a value: parse the info (nothing is written when that
   * raises), name the file after `info['core']` (likewise), open it and write
   * the header, then build the tree; when a builder raises, the file holds
   * the header alone.
   */
  function DescriptorOf(infoText: string, stamp: Stamp): Outcome
  {
    match ParseInfo(infoText)
    case Err(e) => Failed(e, None)
    case Ok(info) =>
      match FileName(info)
      case Err(e) => Failed(e, None)
      case Ok(name) =>
        match ProjectTree(info, stamp)
        case Err(e) => Failed(e, Some(Descriptor(name, Header, None)))
        case Ok(t) => Written(Descriptor(name, Header, Some(t)))
  }

  /**
   * Nothing is written when the info cannot be parsed or has no `core`; a
   * header-only file is left when a builder raises, and then the exception
   * is a missing `name` or `version` or a malformed version (a missing
   * `core` is always caught before the file is opened).
   */
  lemma DescriptorFailures(infoText: string, stamp: Stamp)
    ensures DescriptorOf(infoText, stamp).Failed? && DescriptorOf(infoText, stamp).partial.None? <==>
      ParseInfo(infoText).Err? || "core" !in ParseInfo(infoText).value
    ensures DescriptorOf(infoText, stamp).Failed? && DescriptorOf(infoText, stamp).partial.Some? ==>
      var info := ParseInfo(infoText).value;
      && ParseInfo(infoText).Ok? && "core" in info
      && DescriptorOf(infoText, stamp).partial == Some(Descriptor(info["core"] + ".xml", Header, None))
      && DescriptorOf(infoText, stamp).error in {KeyError("name"), KeyError("version"), IndexError}
  {
    if ParseInfo(infoText).Ok? {
      var info := ParseInfo(infoText).value;
      TitleFieldsErrors(info);
      ReleasesTreeErrors(info, stamp);
    }
  }

  /**
   * A written descriptor is named after the core and holds the header, then
   * one `project` element with the Dublin Core namespace whose children are
   * the ten title leaves, the project terms and the releases. The short name
   * of the title starts the release name, and the major number of the title
   * is the release's `version_major`.
   */
  lemma DescriptorShape(infoText: string, stamp: Stamp)
    requires DescriptorOf(infoText, stamp).Written?
    ensures var info, file := ParseInfo(infoText).value, DescriptorOf(infoText, stamp).file;
      && file.fileName == info["core"] + ".xml" && file.header == Header && file.document.Some?
      && var doc := file.document.value;
      && doc.tag == "project" && doc.text == None && doc.attrib == map["xmlns:dc" := DcNamespace]
      && |doc.children| == 12
      && (forall k :: 0 <= k < 10 ==> doc.children[k].tag == TitleTags[k] && doc.children[k].children == [])
      && doc.children[10] == TermsTree(ProjectTerms)
      && doc.children[11] == ReleasesTree(info, stamp).value
      && var release := doc.children[11].children[0];
      && release.children[0].text == Some(doc.children[1].text.value + " " + info["version"])
      && release.children[3].text == doc.children[5].text
  {
    var info := ParseInfo(infoText).value;
    TitleFieldsShape(info);
    ReleasesTreeShape(info, stamp);
  }

  /**
   * `writeInfoToXML(tag)`, with the `.info` text and the archive's digest,
   * size and clock readings as parameters.
   */
  method WriteInfoToXML(infoText: string, stamp: Stamp) returns (r: Outcome)
    ensures r == DescriptorOf(infoText, stamp)
  {
    var parsed := ParseInfo(infoText);
    if parsed.Err? {
      return Failed(parsed.error, None);
    }
    var info := parsed.value;
    var fileName := FileName(info);
    if fileName.Err? {
      return Failed(fileName.error, None);
    }
    // the file is open and holds the header from here on
    var document := BuildProject(info, stamp);
    if document.Err? {
      return Failed(document.error, Some(Descriptor(fileName.value, Header, None)));
    }
    r := Written(Descriptor(fileName.value, Header, Some(document.value)));
  }

  /**
   * Lines 108-113 of writeInfoToXML: the `project` element is created, given
   * the namespace attribute and filled in place by setTitle, setTerms and
   * setReleases, then read back as a tree.
   */
  method BuildProject(info: Info, stamp: Stamp) returns (r: Result<Tree>)
    ensures r == ProjectTree(info, stamp)
  {
    var project := new Element("project");
    project.Set("xmlns:dc", DcNamespace);
    var head, headFp := AddTitleTerms(project, info);
    if head.Err? {
      return Err(head.error);
    }
    ghost var headKids := project.children;
    ghost var headTrees := Leaves(TitleFields(info).value) + [TermsTree(ProjectTerms)];
    var releases, releasesFp := SetReleases(project, info, stamp);
    if releases.Err? {
      return Err(releases.error);
    }
    ghost var n := |headKids|;
    ghost var rel := ReleasesTree(info, stamp).value;
    SplitLast(project.children, n);
    HoldsAppended(project, headKids, headTrees, headFp, project.children[n], rel, releasesFp);
    ghost var t := Tree(project.tag, project.text, project.attrib, headTrees + [rel]);
    var document := Snapshot(project, t, headFp + releasesFp + {project});
    ProjectTreeOk(info, stamp);
    r := Ok(document);
  }

  /** The document when both builders succeed: the title block, the terms, then the releases. */
  lemma ProjectTreeOk(info: Info, stamp: Stamp)
    requires TitleFields(info).Ok? && ReleasesTree(info, stamp).Ok?
    ensures ProjectTree(info, stamp) == Ok(Tree("project", None, map["xmlns:dc" := DcNamespace],
      Leaves(TitleFields(info).value) + [TermsTree(ProjectTerms)] + [ReleasesTree(info, stamp).value]))
  {
    var head := Leaves(TitleFields(info).value);
    assert head + [TermsTree(ProjectTerms), ReleasesTree(info, stamp).value]
        == head + [TermsTree(ProjectTerms)] + [ReleasesTree(info, stamp).value];
  }

  /** setTitle then setTerms on the new `project` element. */
  method AddTitleTerms(project: Element, info: Info) returns (r: Result<()>, ghost fp: set<Element>)
    modifies project
    requires project.children == []
    ensures project.tag == old(project.tag) && project.text == old(project.text)
    ensures project.attrib == old(project.attrib)
    ensures TitleFields(info).Err? ==> r == Err(TitleFields(info).error)
    ensures TitleFields(info).Ok? ==> r == Ok(()) && fresh(fp)
    ensures TitleFields(info).Ok? ==>
      HoldsAll(project.children, Leaves(TitleFields(info).value) + [TermsTree(ProjectTerms)], fp)
  {
    var title, titleFp := SetTitle(project, info);
    if title.Err? {
      return title, {};
    }
    ghost var titleKids := project.children;
    assert project.children[0..] == titleKids;
    ghost var termsFp := SetTerms(project, info);
    ghost var n := |titleKids|;
    Adopt(titleKids, Leaves(TitleFields(info).value), titleFp, project.children[n], TermsTree(ProjectTerms), termsFp);
    assert project.children == titleKids + [project.children[n]];
    fp := titleFp + termsFp;
    r := Ok(());
  }
}
