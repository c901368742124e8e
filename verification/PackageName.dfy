/** Splitting name-version-release.arch.  The program uses a backtracking pattern; a scan from the right
    computes the same, and printing and splitting undo each other. */
module PackageName {
  import opened Basics
  import opened Strings

  datatype Nevra = Nevra(name: string, version: string, release: string, arch: string)

  function Print(p: Nevra): string {
    p.name + "-" + p.version + "-" + p.release + "." + p.arch
  }

  /** What the four groups of the pattern can match. */
  predicate WellFormed(p: Nevra) {
    && p.name != "" && '\n' !in p.name
    && p.version != "" && '-' !in p.version
    && p.release != "" && '-' !in p.release
    && p.arch != "" && '.' !in p.arch
  }

  // ---------------------------------------------------------------- the pattern

  /** Where the groups end: n[..i], n[i+1..j], n[j+1..k] and n[k+1..m]. */
  datatype Cuts = Cuts(i: nat, j: nat, k: nat, m: nat)

  /** The end of the string, or just in front of a final newline. */
  predicate AtEnd(n: string, m: nat) {
    m == |n| || (m + 1 == |n| && n[m] == '\n')
  }

  predicate NameFits(n: string, i: nat) {
    0 < i < |n| && '\n' !in n[..i] && n[i] == '-'
  }

  predicate VersionFits(n: string, i: nat, j: nat) {
    i + 1 < j < |n| && '-' !in n[i + 1..j] && n[j] == '-'
  }

  predicate ReleaseFits(n: string, j: nat, k: nat) {
    j + 1 < k < |n| && '-' !in n[j + 1..k] && n[k] == '.'
  }

  predicate ArchFits(n: string, k: nat, m: nat) {
    k + 1 < m <= |n| && '.' !in n[k + 1..m] && AtEnd(n, m)
  }

  predicate IsMatch(n: string, c: Cuts) {
    NameFits(n, c.i) && VersionFits(n, c.i, c.j) && ReleaseFits(n, c.j, c.k) && ArchFits(n, c.k, c.m)
  }

  // The backtracking search.  Every group takes as much as it can and gives back one character at a time
  // until the rest of the pattern matches.

  function TryArch(n: string, i: nat, j: nat, k: nat, m: nat): Option<Cuts>
    requires m <= |n|
    decreases m
  {
    if ArchFits(n, k, m) then Some(Cuts(i, j, k, m))
    else if m == 0 then None
    else TryArch(n, i, j, k, m - 1)
  }

  function TryRelease(n: string, i: nat, j: nat, k: nat): Option<Cuts>
    requires k <= |n|
    decreases k
  {
    if ReleaseFits(n, j, k) && TryArch(n, i, j, k, |n|).Some? then TryArch(n, i, j, k, |n|)
    else if k == 0 then None
    else TryRelease(n, i, j, k - 1)
  }

  function TryVersion(n: string, i: nat, j: nat): Option<Cuts>
    requires j <= |n|
    decreases j
  {
    if VersionFits(n, i, j) && TryRelease(n, i, j, |n|).Some? then TryRelease(n, i, j, |n|)
    else if j == 0 then None
    else TryVersion(n, i, j - 1)
  }

  function TryName(n: string, i: nat): Option<Cuts>
    requires i <= |n|
  {
    if NameFits(n, i) && TryVersion(n, i, |n|).Some? then TryVersion(n, i, |n|)
    else if i == 0 then None
    else TryName(n, i - 1)
  }

  function Backtrack(n: string): Option<Cuts> {
    TryName(n, |n|)
  }

  // ---------------------------------------------------------------- the search finds every match

  /** The last group takes a final newline too, so the search always ends at the very end. */
  lemma {:induction false} ArchIsSound(n: string, i: nat, j: nat, k: nat, m: nat)
    requires m <= |n| && (forall e | m < e <= |n| :: !ArchFits(n, k, e))
    ensures TryArch(n, i, j, k, m).Some? ==> TryArch(n, i, j, k, m).value == Cuts(i, j, k, |n|) && ArchFits(n, k, |n|)
  {
    if ArchFits(n, k, m) {
      if m < |n| {
        assert n[k + 1..|n|] == n[k + 1..m] + [n[m]];
        assert ArchFits(n, k, |n|);
      }
    } else if m > 0 {
      ArchIsSound(n, i, j, k, m - 1);
    }
  }

  lemma {:induction false} ReleaseIsSound(n: string, i: nat, j: nat, k: nat)
    requires k <= |n|
    ensures TryRelease(n, i, j, k).Some? ==>
              var c := TryRelease(n, i, j, k).value;
              c.i == i && c.j == j && ReleaseFits(n, j, c.k) && ArchFits(n, c.k, c.m) && c.m == |n|
  {
    ArchIsSound(n, i, j, k, |n|);
    if k == 0 {
    } else {
      ReleaseIsSound(n, i, j, k - 1);
    }
  }

  lemma {:induction false} VersionIsSound(n: string, i: nat, j: nat)
    requires j <= |n|
    ensures TryVersion(n, i, j).Some? ==>
              var c := TryVersion(n, i, j).value;
              c.i == i && VersionFits(n, i, c.j) && ReleaseFits(n, c.j, c.k) && ArchFits(n, c.k, c.m) && c.m == |n|
  {
    ReleaseIsSound(n, i, j, |n|);
    if j == 0 {
    } else {
      VersionIsSound(n, i, j - 1);
    }
  }

  lemma {:induction false} NameIsSound(n: string, i: nat)
    requires i <= |n|
    ensures TryName(n, i).Some? ==> IsMatch(n, TryName(n, i).value) && TryName(n, i).value.m == |n|
  {
    VersionIsSound(n, i, |n|);
    if i == 0 {
    } else {
      NameIsSound(n, i - 1);
    }
  }

  /** What the search returns is a match, up to the very end of the string. */
  lemma BacktrackIsSound(n: string)
    ensures Backtrack(n).Some? ==> IsMatch(n, Backtrack(n).value) && Backtrack(n).value.m == |n|
  {
    NameIsSound(n, |n|);
  }

  lemma {:induction false} ArchIsComplete(n: string, c: Cuts, m: nat)
    requires ArchFits(n, c.k, c.m) && c.m <= m <= |n|
    ensures TryArch(n, c.i, c.j, c.k, m).Some?
  {
    if c.m == m {
    } else {
      ArchIsComplete(n, c, m - 1);
    }
  }

  lemma {:induction false} ReleaseIsComplete(n: string, c: Cuts, k: nat)
    requires IsMatch(n, c) && c.k <= k <= |n|
    ensures TryRelease(n, c.i, c.j, k).Some?
  {
    ArchIsComplete(n, c, |n|);
    if c.k == k {
    } else {
      ReleaseIsComplete(n, c, k - 1);
    }
  }

  lemma {:induction false} VersionIsComplete(n: string, c: Cuts, j: nat)
    requires IsMatch(n, c) && c.j <= j <= |n|
    ensures TryVersion(n, c.i, j).Some?
  {
    ReleaseIsComplete(n, c, |n|);
    if c.j == j {
    } else {
      VersionIsComplete(n, c, j - 1);
    }
  }

  lemma {:induction false} NameIsComplete(n: string, c: Cuts, i: nat)
    requires IsMatch(n, c) && c.i <= i <= |n|
    ensures TryName(n, i).Some?
  {
    VersionIsComplete(n, c, |n|);
    if c.i == i {
    } else {
      NameIsComplete(n, c, i - 1);
    }
  }

  /** If there is a match at all, the search returns one. */
  lemma BacktrackIsComplete(n: string, c: Cuts)
    requires IsMatch(n, c)
    ensures Backtrack(n).Some?
  {
    NameIsComplete(n, c, |n|);
  }

  /** Matches that end at the end of the string agree on every cut: the dot is the last dot, and the
      dashes are the last two dashes in front of it. */
  lemma MatchIsUnique(n: string, c: Cuts, d: Cuts)
    requires IsMatch(n, c) && IsMatch(n, d) && c.m == |n| && d.m == |n|
    ensures c == d
  {
    assert forall x | c.k < x < |n| :: n[x] == n[c.k + 1..c.m][x - c.k - 1];
    assert forall x | d.k < x < |n| :: n[x] == n[d.k + 1..d.m][x - d.k - 1];
    assert c.k == d.k;
    assert forall x | c.j < x < c.k :: n[x] == n[c.j + 1..c.k][x - c.j - 1];
    assert forall x | d.j < x < c.k :: n[x] == n[d.j + 1..d.k][x - d.j - 1];
    assert c.j == d.j;
    assert forall x | c.i < x < c.j :: n[x] == n[c.i + 1..c.j][x - c.i - 1];
    assert forall x | d.i < x < c.j :: n[x] == n[d.i + 1..d.j][x - d.i - 1];
  }

  /** Without a newline in the string the pattern has at most one match. */
  lemma UnambiguousWithoutNewline(n: string, c: Cuts, d: Cuts)
    requires '\n' !in n && IsMatch(n, c) && IsMatch(n, d)
    ensures c == d
  {
    assert c.m == |n| && d.m == |n|;
    MatchIsUnique(n, c, d);
  }

  // ---------------------------------------------------------------- the scan from the right

  function Scan(n: string): Option<Cuts> {
    var k := LastIndexOf(n, '.');
    if k < 0 then None
    else
      var j := LastIndexOf(n[..k], '-');
      if j < 0 then None
      else
        var i := LastIndexOf(n[..j], '-');
        if i > 0 && i + 1 < j && j + 1 < k && k + 1 < |n| && '\n' !in n[..i] then Some(Cuts(i, j, k, |n|)) else None
  }

  lemma ScanIsSound(n: string)
    ensures Scan(n).Some? ==> IsMatch(n, Scan(n).value) && Scan(n).value.m == |n|
  {
    if Scan(n).Some? {
      var c := Scan(n).value;
      assert n[..c.k][c.j] == n[c.j] && n[..c.j][c.i] == n[c.i];
      assert forall x | c.j < x < c.k :: n[..c.k][x] == n[x];
      assert forall x | c.i < x < c.j :: n[..c.j][x] == n[x];
    }
  }

  lemma ScanIsComplete(n: string, c: Cuts)
    requires IsMatch(n, c) && c.m == |n|
    ensures Scan(n) == Some(c)
  {
    assert forall x | c.k < x < |n| :: n[x] == n[c.k + 1..c.m][x - c.k - 1];
    assert LastIndexOf(n, '.') == c.k;
    var head := n[..c.k];
    assert forall x | c.j < x < c.k :: head[x] == n[c.j + 1..c.k][x - c.j - 1];
    assert head[c.j] == '-';
    assert LastIndexOf(head, '-') == c.j;
    var front := n[..c.j];
    assert forall x | c.i < x < c.j :: front[x] == n[c.i + 1..c.j][x - c.i - 1];
    assert front[c.i] == '-';
    assert LastIndexOf(front, '-') == c.i;
  }

  /** For every string, also one with newlines, the backtracking search and the scan from the right return
      the same groups, and they return some exactly if the pattern matches. */
  lemma BacktrackIsScan(n: string)
    ensures Backtrack(n) == Scan(n)
    ensures Scan(n).Some? <==> exists c :: IsMatch(n, c)
  {
    BacktrackIsSound(n);
    ScanIsSound(n);
    if Scan(n).Some? {
      BacktrackIsComplete(n, Scan(n).value);
      MatchIsUnique(n, Scan(n).value, Backtrack(n).value);
    }
    if Backtrack(n).Some? {
      ScanIsComplete(n, Backtrack(n).value);
    }
    if c :| IsMatch(n, c) {
      BacktrackIsComplete(n, c);
    }
  }

  // ---------------------------------------------------------------- printing and splitting

  /** `capture` with the pattern: nothing if it does not match. */
  function Split(n: string): Option<Nevra> {
    BacktrackIsSound(n);
    match Backtrack(n)
    case None => None
    case Some(c) => Some(Nevra(n[..c.i], n[c.i + 1..c.j], n[c.j + 1..c.k], n[c.k + 1..c.m]))
  }

  function CutsOf(p: Nevra): Cuts {
    var i := |p.name|;
    var j := i + 1 + |p.version|;
    var k := j + 1 + |p.release|;
    Cuts(i, j, k, k + 1 + |p.arch|)
  }

  lemma PrintedCuts(p: Nevra)
    requires WellFormed(p)
    ensures var n, c := Print(p), CutsOf(p);
            && IsMatch(n, c) && c.m == |n|
            && n[..c.i] == p.name && n[c.i + 1..c.j] == p.version
            && n[c.j + 1..c.k] == p.release && n[c.k + 1..c.m] == p.arch
  {
  }

  /** Splitting undoes printing, whatever dashes the name and dots the release contain; and what splitting
      returns prints as the string that was split. */
  lemma PrintThenSplit(p: Nevra)
    requires WellFormed(p)
    ensures Split(Print(p)) == Some(p)
  {
    hide Print, WellFormed, CutsOf, Backtrack, Scan, IsMatch;
    PrintedCuts(p);
    ScanIsComplete(Print(p), CutsOf(p));
    BacktrackIsScan(Print(p));
  }

  lemma SplitThenPrint(n: string)
    ensures Split(n).Some? ==> WellFormed(Split(n).value) && Print(Split(n).value) == n
    ensures Split(n).Some? <==> exists p :: WellFormed(p) && Print(p) == n
  {
    BacktrackIsSound(n);
    if Split(n).Some? {
      var c := Backtrack(n).value;
      assert n == n[..c.i] + "-" + n[c.i + 1..c.j] + "-" + n[c.j + 1..c.k] + "." + n[c.k + 1..c.m];
    }
    if p :| WellFormed(p) && Print(p) == n {
      PrintThenSplit(p);
    }
  }
}
