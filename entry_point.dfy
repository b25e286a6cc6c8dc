/**
 * `find_main_py`: choosing the child's entry script inside the unpacked
 * backend tree. The tree is given as the order in which a recursive glob
 * visits its entries, each a path of parts relative to the root, and file
 * reading as a function from a path to its text (`None` where reading fails).
 */
module EntryPoint {
  import opened Wrappers
  import opened Text

  type Path = seq<string>

  /** The preferred file names, most preferred first. */
  const Preferred: seq<string> := ["main.py", "app.py", "run.py"]

  /** The prompt lines whose presence marks a script as the entry point in the fallback search. */
  const PromptStart: string := "Press ENTER to start recording"
  const PromptQuit: string := "Type 'q' + ENTER to quit"

  /** The last part of a path. */
  function Name(p: Path): string {
    if p == [] then "" else p[|p| - 1]
  }

  /** `len(p.parts)` up to the parts of the root, which every entry shares. */
  function Depth(p: Path): nat {
    |p|
  }

  /** `root.rglob(name)`: the entries called `name`, in visiting order. */
  function Matching(entries: seq<Path>, name: string): seq<Path> {
    if entries == [] then []
    else
      var last := entries[|entries| - 1];
      Matching(entries[..|entries| - 1], name) + (if Name(last) == name then [last] else [])
  }

  /** The `candidates` list: the matches of each name in `names`, name after name. */
  function CandidatesFor(entries: seq<Path>, names: seq<string>): seq<Path> {
    if names == [] then []
    else CandidatesFor(entries, names[..|names| - 1]) + Matching(entries, names[|names| - 1])
  }

  /** The glob for `name` finds exactly the entries called `name`. */
  lemma {:induction false} MatchingMembers(entries: seq<Path>, name: string)
    ensures forall p :: p in Matching(entries, name) <==> p in entries && Name(p) == name
  {
    if entries != [] {
      var init := entries[..|entries| - 1];
      MatchingMembers(init, name);
      assert entries == init + [entries[|entries| - 1]];
    }
  }

  /** The candidates are exactly the entries that carry one of the names. */
  lemma {:induction false} CandidatesMembers(entries: seq<Path>, names: seq<string>)
    ensures forall p :: p in CandidatesFor(entries, names) <==> p in entries && Name(p) in names
  {
    if names != [] {
      var init := names[..|names| - 1];
      CandidatesMembers(entries, init);
      MatchingMembers(entries, names[|names| - 1]);
      assert names == init + [names[|names| - 1]];
    }
  }

  function Candidates(entries: seq<Path>): seq<Path> {
    CandidatesFor(entries, Preferred)
  }

  predicate SortedByDepth(s: seq<Path>) {
    forall i, j :: 0 <= i < j < |s| ==> Depth(s[i]) <= Depth(s[j])
  }

  /** Insert `p` before the first element that is not shallower than it. */
  function Insert(p: Path, s: seq<Path>): (r: seq<Path>)
    requires SortedByDepth(s)
    ensures SortedByDepth(r)
    ensures |r| == |s| + 1
    ensures r[0] == (if s == [] || Depth(p) <= Depth(s[0]) then p else s[0])
    ensures multiset(r) == multiset(s) + multiset{p}
  {
    if s == [] then [p]
    else if Depth(p) <= Depth(s[0]) then [p] + s
    else
      var t := Insert(p, s[1..]);
      assert s == [s[0]] + s[1..];
      assert multiset(s) == multiset{s[0]} + multiset(s[1..]);
      [s[0]] + t
  }

  /** `list.sort(key=lambda p: len(p.parts))`: a stable sort by depth. */
  function SortByDepth(c: seq<Path>): (r: seq<Path>)
    ensures |r| == |c|
    ensures SortedByDepth(r)
    ensures multiset(r) == multiset(c)
  {
    if c == [] then []
    else
      assert c == [c[0]] + c[1..];
      Insert(c[0], SortByDepth(c[1..]))
  }

  /** The index of the first of the shallowest paths. */
  function FirstShallowest(c: seq<Path>): (i: nat)
    requires c != []
    ensures i < |c|
    ensures forall j :: 0 <= j < |c| ==> Depth(c[i]) <= Depth(c[j])
    ensures forall j :: 0 <= j < i ==> Depth(c[i]) < Depth(c[j])
  {
    if |c| == 1 then 0
    else
      var k := FirstShallowest(c[1..]);
      if Depth(c[0]) <= Depth(c[1 + k]) then 0 else 1 + k
  }

  /** Because the sort is stable, its first element is the first of the shallowest candidates. */
  lemma {:induction false} SortHeadIsFirstShallowest(c: seq<Path>)
    requires c != []
    ensures |SortByDepth(c)| == |c|
    ensures SortByDepth(c)[0] == c[FirstShallowest(c)]
  {
    if |c| > 1 {
      var t := c[1..];
      SortHeadIsFirstShallowest(t);
      var s := SortByDepth(t);
      var k := FirstShallowest(t);
      assert SortByDepth(c) == Insert(c[0], s);
      assert s[0] == c[1 + k];
    }
  }

  /** The fallback's test: a `.py` entry whose text holds one of the prompt lines. */
  predicate Prompted(p: Path, read: Path -> Option<string>) {
    && |Name(p)| >= 3 && Name(p)[|Name(p)| - 3..] == ".py"
    && read(p).Some?
    && (Contains(read(p).value, PromptStart) || Contains(read(p).value, PromptQuit))
  }

  /** The first prompted entry in visiting order, if any. */
  function Fallback(entries: seq<Path>, read: Path -> Option<string>): (r: Option<Path>)
    ensures r.None? <==> forall i :: 0 <= i < |entries| ==> !Prompted(entries[i], read)
    ensures r.Some? ==> exists i :: 0 <= i < |entries| && entries[i] == r.value
                                    && Prompted(r.value, read)
                                    && forall j :: 0 <= j < i ==> !Prompted(entries[j], read)
  {
    if entries == [] then None
    else if Prompted(entries[0], read) then Some(entries[0])
    else
      var r := Fallback(entries[1..], read);
      assert forall j :: 1 <= j < |entries| ==> entries[j] == entries[1..][j - 1];
      r
  }

  /** What `find_main_py` returns. */
  function FindMain(entries: seq<Path>, read: Path -> Option<string>): (r: Option<Path>)
    ensures r.Some? ==> r.value in entries
  {
    var c := Candidates(entries);
    if c != [] then
      CandidatesMembers(entries, Preferred);
      assert SortByDepth(c)[0] in multiset(c);
      Some(SortByDepth(c)[0])
    else Fallback(entries, read)
  }

  /**
   * A named candidate wins whenever one exists: the first, in name-preference
   * order, of the shallowest ones. Otherwise the first prompted `.py` entry,
   * and `None` when there is none.
   */
  lemma FindMainChoice(entries: seq<Path>, read: Path -> Option<string>)
    ensures var c := Candidates(entries); var r := FindMain(entries, read);
      && (c != [] ==> r == Some(c[FirstShallowest(c)]) && r.value in entries && Name(r.value) in Preferred)
      && (c == [] ==> forall p :: p in entries ==> Name(p) !in Preferred)
      && (c == [] ==> r == Fallback(entries, read))
  {
    var c := Candidates(entries);
    CandidatesMembers(entries, Preferred);
    if c != [] {
      SortHeadIsFirstShallowest(c);
      assert c[FirstShallowest(c)] in c;
    }
  }

  lemma MatchingStep(entries: seq<Path>, i: nat, name: string)
    requires i < |entries|
    ensures Matching(entries[..i + 1], name)
         == Matching(entries[..i], name) + (if Name(entries[i]) == name then [entries[i]] else [])
  {
    assert entries[..i + 1][..i] == entries[..i];
  }

  lemma CandidatesStep(entries: seq<Path>, names: seq<string>, k: nat)
    requires k < |names|
    ensures CandidatesFor(entries, names[..k + 1]) == CandidatesFor(entries, names[..k]) + Matching(entries, names[k])
  {
    assert names[..k + 1][..k] == names[..k];
  }

  /** The nested loops that build `candidates`. */
  method CollectCandidates(entries: seq<Path>) returns (candidates: seq<Path>)
    ensures candidates == Candidates(entries)
  {
    candidates := [];
    var k := 0;
    while k < |Preferred|
      invariant k <= |Preferred|
      invariant candidates == CandidatesFor(entries, Preferred[..k])
    {
      var name := Preferred[k];
      ghost var before := candidates;
      var i := 0;
      while i < |entries|
        invariant i <= |entries|
        invariant candidates == before + Matching(entries[..i], name)
      {
        MatchingStep(entries, i, name);
        if Name(entries[i]) == name {
          candidates := candidates + [entries[i]];
        }
        i := i + 1;
      }
      assert entries[..i] == entries;
      CandidatesStep(entries, Preferred, k);
      k := k + 1;
    }
    assert Preferred[..k] == Preferred;
  }

  /** The fallback loop over every `.py` entry. */
  method FirstPrompted(entries: seq<Path>, read: Path -> Option<string>) returns (r: Option<Path>)
    ensures r == Fallback(entries, read)
    ensures r.Some? ==> r.value in entries && Prompted(r.value, read)
  {
    var i := 0;
    while i < |entries|
      invariant i <= |entries|
      invariant Fallback(entries, read) == Fallback(entries[i..], read)
    {
      var p := entries[i];
      var text := read(p);
      var name := Name(p);
      if |name| >= 3 && name[|name| - 3..] == ".py" && text.Some?
        && (Contains(text.value, PromptStart) || Contains(text.value, PromptQuit))
      {
        return Some(p);
      }
      assert entries[i..][1..] == entries[i + 1..];
      i := i + 1;
    }
    r := None;
  }

  /** The whole search: a named candidate if there is one, else the fallback. */
  method FindMainPy(entries: seq<Path>, read: Path -> Option<string>) returns (r: Option<Path>)
    ensures r == FindMain(entries, read)
    ensures Candidates(entries) != [] ==> r.Some? && Name(r.value) in Preferred
    ensures Candidates(entries) == [] ==> r == Fallback(entries, read)
  {
    FindMainChoice(entries, read);
    var candidates := CollectCandidates(entries);
    if candidates != [] {
      var sorted := SortByDepth(candidates);
      return Some(sorted[0]);
    }
    r := FirstPrompted(entries, read);
  }
}
