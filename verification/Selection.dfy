/** Which releases go into the testing channel: the newest candidates, by sorting on the publish time. */
module Selection {
  import opened Basics
  import opened Timestamps

  /** A published file of a release; its digest has the form `sha256:...` if there is one. */
  datatype Upload = Upload(name: string, digest: Option<string>, url: string)

  datatype Release = Release(tag: string, prerelease: bool, draft: bool, publishedAt: string, uploads: seq<Upload>)

  predicate Eligible(r: Release, withdrawn: seq<string>) {
    r.prerelease && !r.draft && r.tag !in withdrawn
  }

  function Candidates(rs: seq<Release>, withdrawn: seq<string>): seq<Release> {
    if rs == [] then []
    else (if Eligible(rs[0], withdrawn) then [rs[0]] else []) + Candidates(rs[1..], withdrawn)
  }

  /** `sort_by(.published_at)`, stable. */
  function SortByTime(rs: seq<Release>): seq<Release> {
    if rs == [] then [] else InsertByTime(rs[0], SortByTime(rs[1..]))
  }

  /** In front of the first release that was not published earlier. */
  function InsertByTime(r: Release, rs: seq<Release>): seq<Release> {
    if rs == [] then [r]
    else if LexLess(rs[0].publishedAt, r.publishedAt) then [rs[0]] + InsertByTime(r, rs[1..])
    else [r] + rs
  }

  function Reverse<T>(s: seq<T>): (r: seq<T>)
    ensures |r| == |s|
    ensures forall i | 0 <= i < |s| :: r[i] == s[|s| - 1 - i]
  {
    if s == [] then [] else Reverse(s[1..]) + [s[0]]
  }

  /** The length of `.[:n]`; a negative n counts from the end. */
  function SliceEnd(length: nat, n: int): (e: nat)
    ensures e <= length
  {
    if n >= 0 then Min(n, length)
    else if length + n >= 0 then length + n
    else 0
  }

  function NewestFirst(rs: seq<Release>, withdrawn: seq<string>): seq<Release> {
    Reverse(SortByTime(Candidates(rs, withdrawn)))
  }

  function TestingWindow(rs: seq<Release>, withdrawn: seq<string>, keep: int): seq<Release> {
    var releases := NewestFirst(rs, withdrawn);
    releases[..SliceEnd(|releases|, keep)]
  }

  // ---------------------------------------------------------------- sorting

  predicate NotLater(a: Release, b: Release) {
    !LexLess(b.publishedAt, a.publishedAt)
  }

  predicate Sorted(rs: seq<Release>) {
    forall i, j | 0 <= i < j < |rs| :: NotLater(rs[i], rs[j])
  }

  lemma NotLaterTransitive(a: Release, b: Release, c: Release)
    requires NotLater(a, b) && NotLater(b, c)
    ensures NotLater(a, c)
  {
    LexTotal(a.publishedAt, b.publishedAt);
    LexTotal(b.publishedAt, c.publishedAt);
    if LexLess(a.publishedAt, b.publishedAt) && LexLess(b.publishedAt, c.publishedAt) {
      LexTransitive(a.publishedAt, b.publishedAt, c.publishedAt);
    }
    LexTotal(a.publishedAt, c.publishedAt);
  }

  lemma {:induction false} InsertKeepsAll(r: Release, rs: seq<Release>)
    ensures multiset(InsertByTime(r, rs)) == multiset([r]) + multiset(rs)
  {
    if rs == [] || !LexLess(rs[0].publishedAt, r.publishedAt) {
    } else {
      InsertKeepsAll(r, rs[1..]);
      assert rs == [rs[0]] + rs[1..];
      assert multiset(rs) == multiset([rs[0]]) + multiset(rs[1..]);
    }
  }

  lemma {:induction false} SortKeepsAll(rs: seq<Release>)
    ensures multiset(SortByTime(rs)) == multiset(rs)
  {
    if rs == [] {
    } else {
      SortKeepsAll(rs[1..]);
      InsertKeepsAll(rs[0], SortByTime(rs[1..]));
      assert rs == [rs[0]] + rs[1..];
    }
  }

  lemma FirstStaysFirst(r: Release, rs: seq<Release>)
    requires Sorted(rs) && rs != [] && LexLess(rs[0].publishedAt, r.publishedAt)
    ensures forall x | x in InsertByTime(r, rs[1..]) :: NotLater(rs[0], x)
  {
    InsertKeepsAll(r, rs[1..]);
    LexTotal(rs[0].publishedAt, r.publishedAt);
    forall x | x in InsertByTime(r, rs[1..]) ensures NotLater(rs[0], x) {
      assert x in multiset(InsertByTime(r, rs[1..]));
      assert x == r || x in rs[1..];
    }
  }

  lemma {:induction false} InsertSorts(r: Release, rs: seq<Release>)
    requires Sorted(rs)
    ensures Sorted(InsertByTime(r, rs))
  {
    var out := InsertByTime(r, rs);
    if rs == [] {
    } else {
      if LexLess(rs[0].publishedAt, r.publishedAt) {
        InsertSorts(r, rs[1..]);
        var rest := InsertByTime(r, rs[1..]);
        FirstStaysFirst(r, rs);
        forall i, j | 0 <= i < j < |out| ensures NotLater(out[i], out[j]) {
          if i == 0 {
            assert out[j] == rest[j - 1] && rest[j - 1] in rest;
          } else {
            assert out[i] == rest[i - 1] && out[j] == rest[j - 1];
          }
        }
      } else {
        forall j | 0 < j < |out| ensures NotLater(r, out[j]) {
          if j > 1 {
            NotLaterTransitive(r, rs[0], rs[j - 1]);
          }
        }
        forall i, j | 0 <= i < j < |out| ensures NotLater(out[i], out[j]) {
          if i > 0 {
            assert out[i] == rs[i - 1] && out[j] == rs[j - 1];
          }
        }
      }
    }
  }

  lemma {:induction false} SortSorts(rs: seq<Release>)
    ensures Sorted(SortByTime(rs))
  {
    if rs == [] {
    } else {
      SortSorts(rs[1..]);
      InsertSorts(rs[0], SortByTime(rs[1..]));
    }
  }

  lemma {:induction false} ReverseKeepsAll<T>(s: seq<T>)
    ensures multiset(Reverse(s)) == multiset(s)
  {
    if s == [] {
    } else {
      ReverseKeepsAll(s[1..]);
      assert s == [s[0]] + s[1..];
    }
  }

  lemma NewestFirstLaw(rs: seq<Release>, withdrawn: seq<string>)
    ensures var nf := NewestFirst(rs, withdrawn);
            && multiset(nf) == multiset(Candidates(rs, withdrawn))
            && |nf| == |Candidates(rs, withdrawn)|
            && forall i, j | 0 <= i < j < |nf| :: NotLater(nf[j], nf[i])
  {
    var cs := Candidates(rs, withdrawn);
    SortSorts(cs);
    SortKeepsAll(cs);
    ReverseKeepsAll(SortByTime(cs));
    assert |multiset(NewestFirst(rs, withdrawn))| == |multiset(cs)|;
  }

  lemma {:induction false} CandidateCount(rs: seq<Release>, withdrawn: seq<string>, r: Release)
    ensures multiset(Candidates(rs, withdrawn))[r] == if Eligible(r, withdrawn) then multiset(rs)[r] else 0
  {
    if rs == [] {
    } else {
      CandidateCount(rs[1..], withdrawn, r);
      assert rs == [rs[0]] + rs[1..];
    }
  }

  /** Each release that may be in the channel is in one of the two lists, as often as in the input. */
  ghost predicate TakenOrLeft(rs: seq<Release>, withdrawn: seq<string>, taken: seq<Release>, left: seq<Release>) {
    forall r :: multiset(taken)[r] + multiset(left)[r] ==
                if r.prerelease && !r.draft && r.tag !in withdrawn then multiset(rs)[r] else 0
  }

  lemma EachOnOneSide(rs: seq<Release>, withdrawn: seq<string>, taken: seq<Release>, left: seq<Release>)
    requires NewestFirst(rs, withdrawn) == taken + left
    ensures TakenOrLeft(rs, withdrawn, taken, left)
  {
    NewestFirstLaw(rs, withdrawn);
    hide NewestFirst, NotLater, Candidates;
    assert multiset(taken) + multiset(left) == multiset(Candidates(rs, withdrawn));
    forall r
      ensures multiset(taken)[r] + multiset(left)[r] ==
              if r.prerelease && !r.draft && r.tag !in withdrawn then multiset(rs)[r] else 0
    {
      CandidateCount(rs, withdrawn, r);
    }
  }

  /** How many of the available releases are taken. */
  function WindowSize(available: nat, keep: int): nat {
    if keep >= available then available
    else if keep >= 0 then keep
    else if -keep <= available then available + keep
    else 0
  }

  /** The releases in the testing channel: as many as asked for or as there are, where a negative number asks
      for all but so many; taken from the releases that are marked as candidates, are no drafts and do not have
      the tag of a withdrawn entry, each as often as it is listed; newest first; and none that was left out is
      newer than one that was taken. */
  lemma WindowTakesTheNewest(rs: seq<Release>, withdrawn: seq<string>, keep: int) returns (left: seq<Release>)
    ensures var taken := TestingWindow(rs, withdrawn, keep);
            && NewestFirst(rs, withdrawn) == taken + left
            && TakenOrLeft(rs, withdrawn, taken, left)
            && |taken| == WindowSize(|taken| + |left|, keep)
            && (forall i, j | 0 <= i < j < |taken| :: NotLater(taken[j], taken[i]))
            && (forall i, j | 0 <= i < |taken| && 0 <= j < |left| :: NotLater(left[j], taken[i]))
  {
    NewestFirstLaw(rs, withdrawn);
    var nf := NewestFirst(rs, withdrawn);
    var e := SliceEnd(|nf|, keep);
    left := nf[e..];
    hide NewestFirst, NotLater, TakenOrLeft;
    assert nf == nf[..e] + left;
    EachOnOneSide(rs, withdrawn, nf[..e], left);
  }

  lemma TakenIsEligible(rs: seq<Release>, withdrawn: seq<string>, keep: int, r: Release)
    requires r in TestingWindow(rs, withdrawn, keep)
    ensures r in rs && r.prerelease && !r.draft && r.tag !in withdrawn
  {
    var left := WindowTakesTheNewest(rs, withdrawn, keep);
    hide TestingWindow;
    assert r in multiset(TestingWindow(rs, withdrawn, keep));
    assert r in multiset(rs);
  }

  // ---------------------------------------------------------------- releases published at the same time

  /** The releases that may be in the channel and were published at that time, in the order of the list. */
  function CandidatesAt(rs: seq<Release>, withdrawn: seq<string>, time: string): seq<Release> {
    if rs == [] then []
    else
      (if rs[0].prerelease && !rs[0].draft && rs[0].tag !in withdrawn && rs[0].publishedAt == time then [rs[0]] else [])
      + CandidatesAt(rs[1..], withdrawn, time)
  }

  predicate PublishedAt(r: Release, time: string) {
    r.publishedAt == time
  }

  function AtTime(rs: seq<Release>, time: string): seq<Release> {
    if rs == [] then [] else if PublishedAt(rs[0], time) then [rs[0]] + AtTime(rs[1..], time) else AtTime(rs[1..], time)
  }

  lemma {:induction false} InsertIsStable(r: Release, rs: seq<Release>, time: string)
    ensures AtTime(InsertByTime(r, rs), time) == AtTime([r] + rs, time)
  {
    assert ([r] + rs)[1..] == rs;
    if rs == [] {
    } else if LexLess(rs[0].publishedAt, r.publishedAt) {
      InsertIsStable(r, rs[1..], time);
      LexIrreflexive(r.publishedAt);
      assert ([r] + rs[1..])[1..] == rs[1..];
      assert ([rs[0]] + InsertByTime(r, rs[1..]))[1..] == InsertByTime(r, rs[1..]);
    }
  }

  lemma {:induction false} SortIsStable(rs: seq<Release>, time: string)
    ensures AtTime(SortByTime(rs), time) == AtTime(rs, time)
  {
    if rs == [] {
    } else {
      SortIsStable(rs[1..], time);
      InsertIsStable(rs[0], SortByTime(rs[1..]), time);
      assert ([rs[0]] + SortByTime(rs[1..]))[1..] == SortByTime(rs[1..]);
    }
  }

  lemma {:induction false} AtTimeOneMore(rs: seq<Release>, r: Release, time: string)
    ensures AtTime(rs + [r], time) == if PublishedAt(r, time) then AtTime(rs, time) + [r] else AtTime(rs, time)
  {
    hide PublishedAt;
    if rs == [] {
      assert [] + [r] == [r] && [r][1..] == [];
    } else {
      AtTimeOneMore(rs[1..], r, time);
      assert (rs + [r])[0] == rs[0] && (rs + [r])[1..] == rs[1..] + [r];
    }
  }

  lemma {:induction false} ReverseAtTime(rs: seq<Release>, time: string)
    ensures AtTime(Reverse(rs), time) == Reverse(AtTime(rs, time))
  {
    if rs == [] {
    } else {
      ReverseAtTime(rs[1..], time);
      AtTimeOneMore(Reverse(rs[1..]), rs[0], time);
      hide PublishedAt;
      if PublishedAt(rs[0], time) {
        assert ([rs[0]] + AtTime(rs[1..], time))[1..] == AtTime(rs[1..], time);
      }
    }
  }

  lemma {:induction false} CandidatesAtTime(rs: seq<Release>, withdrawn: seq<string>, time: string)
    ensures AtTime(Candidates(rs, withdrawn), time) == CandidatesAt(rs, withdrawn, time)
  {
    if rs == [] {
    } else {
      CandidatesAtTime(rs[1..], withdrawn, time);
      if Eligible(rs[0], withdrawn) {
        assert ([rs[0]] + Candidates(rs[1..], withdrawn))[1..] == Candidates(rs[1..], withdrawn);
      } else {
        assert [] + Candidates(rs[1..], withdrawn) == Candidates(rs[1..], withdrawn);
      }
    }
  }

  /** Of releases published at the same time the one listed last comes first, and is taken first. */
  lemma TiesAreReversed(rs: seq<Release>, withdrawn: seq<string>, keep: int, time: string)
    returns (left: seq<Release>)
    ensures TakenOrLeft(rs, withdrawn, TestingWindow(rs, withdrawn, keep), left)
    ensures AtTime(TestingWindow(rs, withdrawn, keep) + left, time) == Reverse(CandidatesAt(rs, withdrawn, time))
  {
    left := WindowTakesTheNewest(rs, withdrawn, keep);
    var cs := Candidates(rs, withdrawn);
    ReverseAtTime(SortByTime(cs), time);
    SortIsStable(cs, time);
    CandidatesAtTime(rs, withdrawn, time);
    hide TestingWindow, Candidates, CandidatesAt, AtTime, Reverse, SortByTime;
  }

  // ---------------------------------------------------------------- publish times as points in time

  /** A publish time is the text of a point in time. */
  ghost predicate PublishedAtTime(r: Release, at: Release -> Time) {
    Valid(at(r)) && r.publishedAt == Format(at(r))
  }

  lemma NotLaterInTime(a: Release, b: Release, at: Release -> Time)
    requires PublishedAtTime(a, at) && PublishedAtTime(b, at)
    ensures NotLater(a, b) <==> Seconds(at(a)) <= Seconds(at(b))
  {
    StringOrderIsTimeOrder(at(b), at(a));
  }

  /** With publish times of fixed width the window is the newest in time: nothing in it is older, counted in
      seconds, than what follows it or than what was left out. */
  lemma WindowIsNewestInTime(rs: seq<Release>, withdrawn: seq<string>, keep: int, at: Release -> Time)
      returns (left: seq<Release>)
    requires forall r | r in rs && r.prerelease && !r.draft && r.tag !in withdrawn :: PublishedAtTime(r, at)
    ensures var taken := TestingWindow(rs, withdrawn, keep);
            && TakenOrLeft(rs, withdrawn, taken, left)
            && |taken| == WindowSize(|taken| + |left|, keep)
            && (forall i, j | 0 <= i < j < |taken| :: Seconds(at(taken[j])) <= Seconds(at(taken[i])))
            && (forall i, j | 0 <= i < |taken| && 0 <= j < |left| :: Seconds(at(left[j])) <= Seconds(at(taken[i])))
  {
    var taken := TestingWindow(rs, withdrawn, keep);
    left := WindowTakesTheNewest(rs, withdrawn, keep);
    hide TestingWindow, NewestFirst, WindowSize, NotLater, PublishedAtTime, Seconds;
    forall r | r in taken + left ensures PublishedAtTime(r, at) {
      assert r in multiset(taken) || r in multiset(left);
      assert r in multiset(rs);
    }
    forall i, j | 0 <= i < j < |taken| ensures Seconds(at(taken[j])) <= Seconds(at(taken[i])) {
      assert taken[i] in taken + left && taken[j] in taken + left;
      NotLaterInTime(taken[j], taken[i], at);
    }
    forall i, j | 0 <= i < |taken| && 0 <= j < |left| ensures Seconds(at(left[j])) <= Seconds(at(taken[i])) {
      assert taken[i] in taken + left && left[j] in taken + left;
      NotLaterInTime(left[j], taken[i], at);
    }
  }

  // ---------------------------------------------------------------- independence of the input order

  predicate DistinctTimes(rs: seq<Release>) {
    forall i, j | 0 <= i < j < |rs| :: rs[i].publishedAt != rs[j].publishedAt
  }

  predicate StrictlySorted(rs: seq<Release>) {
    forall i, j | 0 <= i < j < |rs| :: LexLess(rs[i].publishedAt, rs[j].publishedAt)
  }

  /** Distinct times, said of the releases as a multiset. */
  ghost predicate TimesIdentify(m: multiset<Release>) {
    && (forall r | r in m :: m[r] == 1)
    && (forall a, b | a in m && b in m && a.publishedAt == b.publishedAt :: a == b)
  }

  lemma {:induction false} DistinctIdentifies(rs: seq<Release>)
    requires DistinctTimes(rs)
    ensures TimesIdentify(multiset(rs))
  {
    if rs == [] {
    } else {
      DistinctIdentifies(rs[1..]);
      assert rs == [rs[0]] + rs[1..];
      assert multiset(rs) == multiset([rs[0]]) + multiset(rs[1..]);
      forall r | r in rs[1..] ensures r.publishedAt != rs[0].publishedAt {
        var j :| 0 <= j < |rs[1..]| && rs[1..][j] == r;
        assert rs[j + 1] == r;
      }
      forall r | r in multiset(rs) ensures multiset(rs)[r] == 1 {
        if r == rs[0] {
          assert r !in rs[1..];
        }
      }
    }
  }

  lemma SortedIsStrict(rs: seq<Release>)
    requires Sorted(rs) && TimesIdentify(multiset(rs))
    ensures StrictlySorted(rs)
  {
    forall i, j | 0 <= i < j < |rs| ensures LexLess(rs[i].publishedAt, rs[j].publishedAt) {
      assert NotLater(rs[i], rs[j]);
      LexTotal(rs[i].publishedAt, rs[j].publishedAt);
      if rs[i].publishedAt == rs[j].publishedAt {
        assert rs[i] in multiset(rs) && rs[j] in multiset(rs);
        assert rs[i] == rs[j];
        TwiceMeansTwo(rs, i, j);
      }
    }
  }

  lemma TwiceMeansTwo(rs: seq<Release>, i: nat, j: nat)
    requires i < j < |rs| && rs[i] == rs[j]
    ensures multiset(rs)[rs[i]] >= 2
  {
    assert rs == rs[..j] + [rs[j]] + rs[j + 1..];
    assert rs[..j][i] == rs[i];
    assert rs[i] in multiset(rs[..j]);
  }

  lemma SameFirst(a: seq<Release>, b: seq<Release>)
    requires StrictlySorted(a) && StrictlySorted(b) && multiset(a) == multiset(b) && a != [] && b != []
    ensures a[0] == b[0]
  {
    assert a[0] in multiset(b) && b[0] in multiset(a);
    var i :| 0 <= i < |a| && a[i] == b[0];
    var j :| 0 <= j < |b| && b[j] == a[0];
    LexTotal(a[0].publishedAt, b[0].publishedAt);
    hide LexLess;
  }

  lemma {:induction false} StrictOrderIsUnique(a: seq<Release>, b: seq<Release>)
    requires StrictlySorted(a) && StrictlySorted(b) && multiset(a) == multiset(b)
    ensures a == b
  {
    hide LexLess;
    assert |a| == |multiset(a)| == |multiset(b)| == |b|;
    if a == [] {
    } else {
      SameFirst(a, b);
      assert a == [a[0]] + a[1..] && b == [b[0]] + b[1..];
      assert multiset(a[1..]) == multiset(a) - multiset([a[0]]);
      assert multiset(b[1..]) == multiset(b) - multiset([b[0]]);
      StrictOrderIsUnique(a[1..], b[1..]);
    }
  }

  /** With distinct publish times the channel does not depend on the order in which the releases are
      listed. */
  lemma WindowIgnoresInputOrder(a: seq<Release>, b: seq<Release>, withdrawn: seq<string>, keep: int)
    requires multiset(a) == multiset(b) && DistinctTimes(Candidates(a, withdrawn))
    ensures TestingWindow(a, withdrawn, keep) == TestingWindow(b, withdrawn, keep)
  {
    var ca, cb := Candidates(a, withdrawn), Candidates(b, withdrawn);
    forall r ensures multiset(ca)[r] == multiset(cb)[r] {
      CandidateCount(a, withdrawn, r);
      CandidateCount(b, withdrawn, r);
    }
    assert multiset(ca) == multiset(cb);
    DistinctIdentifies(ca);
    SortSorts(ca);
    SortSorts(cb);
    SortKeepsAll(ca);
    SortKeepsAll(cb);
    SortedIsStrict(SortByTime(ca));
    SortedIsStrict(SortByTime(cb));
    StrictOrderIsUnique(SortByTime(ca), SortByTime(cb));
  }
}
