/** The file filter of `Camera#make_list`: which entries of the directory walk become photo
    records. The walk itself (`Find.find`, `File.ftype`, `File.mtime`) is an input sequence. */
module PhotoFilter {

  /** The answers `File.ftype` can give for a walked entry. */
  datatype FileType = File | Directory | Link | CharacterSpecial | BlockSpecial | Fifo | Socket | Unknown

  /** One entry the walk visits: its full path, its type and its modification time in seconds. */
  datatype Entry = Entry(path: string, ftype: FileType, mtime: int)

  /** A kept entry, the pair `[fullpath, mtime]`. */
  datatype Record = Record(path: string, mtime: int)

  /** Case folding of the `/i` flag, on ASCII letters. */
  function Lower(c: char): char {
    if 'A' <= c <= 'Z' then (c as int + 32) as char else c
  }

  /** `a` and `b` are the same string ignoring case. */
  predicate EqualNoCase(a: string, b: string) {
    |a| == |b| && forall k :: 0 <= k < |a| ==> Lower(a[k]) == Lower(b[k])
  }

  /** `pat` occurs in `s` at offset `i`, ignoring case. */
  predicate MatchesAt(s: string, i: nat, pat: string)
    requires i + |pat| <= |s|
  {
    EqualNoCase(s[i..i + |pat|], pat)
  }

  /** What a case-insensitive substring search decides, stated without a scan. */
  ghost predicate OccursNoCase(s: string, pat: string) {
    exists i: nat :: i + |pat| <= |s| && MatchesAt(s, i, pat)
  }

  lemma MatchesAtShift(s: string, i: nat, pat: string)
    requires 1 <= |s| && i + 1 + |pat| <= |s|
    ensures MatchesAt(s[1..], i, pat) <==> MatchesAt(s, i + 1, pat)
  {
    assert s[1..][i..i + |pat|] == s[i + 1..i + 1 + |pat|];
  }

  /** `pat` occurs in `s` either at the head or somewhere in the rest. */
  lemma OccursStep(s: string, pat: string)
    requires 1 <= |s| && |pat| <= |s|
    ensures OccursNoCase(s, pat) <==> MatchesAt(s, 0, pat) || OccursNoCase(s[1..], pat)
  {
    if OccursNoCase(s[1..], pat) {
      var j: nat :| j + |pat| <= |s[1..]| && MatchesAt(s[1..], j, pat);
      MatchesAtShift(s, j, pat);
    }
    if OccursNoCase(s, pat) && !MatchesAt(s, 0, pat) {
      var i: nat :| i + |pat| <= |s| && MatchesAt(s, i, pat);
      MatchesAtShift(s, i - 1, pat);
    }
  }

  /** `s =~ /.*pat/i`: the leading `.*` may match nothing, so the unanchored regular
      expression matches exactly when `pat` occurs somewhere in `s`. Scans left to right. */
  function ContainsNoCase(s: string, pat: string): (r: bool)
    ensures r <==> OccursNoCase(s, pat)
    decreases |s|
  {
    if |s| < |pat| then false
    else if MatchesAt(s, 0, pat) then true
    else
      OccursStep(s, pat);
      ContainsNoCase(s[1..], pat)
  }

  /** The condition at import.rb:47-48 with Ruby's precedence: `&&` binds tighter than `||`,
      so the regular-file test guards only the "jpg" clause. An entry is kept exactly when
      it is a regular file whose path contains "jpg", or its path contains "txt", both
      ignoring case. */
  predicate Keep(e: Entry)
    ensures Keep(e) <==> (e.ftype == File && OccursNoCase(e.path, "jpg")) || OccursNoCase(e.path, "txt")
  {
    (e.ftype == File && ContainsNoCase(e.path, "jpg")) || ContainsNoCase(e.path, "txt")
  }

  /** The precedence as written: a "txt" path is kept whatever its type, a directory included. */
  lemma TxtKeptWhateverItsType(path: string, ftype: FileType, mtime: int)
    requires OccursNoCase(path, "txt")
    ensures Keep(Entry(path, ftype, mtime))
  {
  }

  /** A directory, link or other non-regular entry is kept only through its "txt" clause. */
  lemma NonFileKeptOnlyForTxt(e: Entry)
    requires e.ftype != File
    ensures Keep(e) <==> OccursNoCase(e.path, "txt")
  {
  }

  /** The records `make_list` pushes, in walk order, each with the entry's mtime. */
  function Selected(walk: seq<Entry>): (r: seq<Record>)
    ensures |r| <= |walk|
  {
    if walk == [] then []
    else (if Keep(walk[0]) then [Record(walk[0].path, walk[0].mtime)] else []) + Selected(walk[1..])
  }

  /** Visiting one more entry appends its record exactly when it is kept: the order of the
      records is the order of the walk. */
  lemma {:induction false} SelectedAppend(walk: seq<Entry>, e: Entry)
    ensures Selected(walk + [e]) == Selected(walk) + (if Keep(e) then [Record(e.path, e.mtime)] else [])
  {
    if walk != [] {
      assert (walk + [e])[1..] == walk[1..] + [e];
      SelectedAppend(walk[1..], e);
    } else {
      assert Selected([e]) == (if Keep(e) then [Record(e.path, e.mtime)] else []) + Selected([]);
    }
  }

  /** The records of one more entry of the walk, as the loop of `make_list` visits it. */
  lemma SelectedPrefixStep(walk: seq<Entry>, i: nat)
    requires i < |walk|
    ensures Selected(walk[..i + 1]) == Selected(walk[..i])
      + (if Keep(walk[i]) then [Record(walk[i].path, walk[i].mtime)] else [])
  {
    SelectedAppend(walk[..i], walk[i]);
    assert walk[..i + 1] == walk[..i] + [walk[i]];
  }

  /** Every record comes from a kept entry of the walk, and every kept entry gives a record. */
  lemma {:induction false} SelectedMembers(walk: seq<Entry>, r: Record)
    ensures r in Selected(walk) <==> exists k :: 0 <= k < |walk| && Keep(walk[k]) && r == Record(walk[k].path, walk[k].mtime)
  {
    if walk != [] {
      SelectedMembers(walk[1..], r);
      if exists k :: 0 <= k < |walk[1..]| && Keep(walk[1..][k]) && r == Record(walk[1..][k].path, walk[1..][k].mtime) {
        var k :| 0 <= k < |walk[1..]| && Keep(walk[1..][k]) && r == Record(walk[1..][k].path, walk[1..][k].mtime);
        assert walk[k + 1] == walk[1..][k];
      }
      if exists k :: 0 <= k < |walk| && Keep(walk[k]) && r == Record(walk[k].path, walk[k].mtime) {
        var k :| 0 <= k < |walk| && Keep(walk[k]) && r == Record(walk[k].path, walk[k].mtime);
        if k > 0 {
          assert walk[1..][k - 1] == walk[k];
        }
      }
    }
  }
}
