/**
  The lock table of includes: resolving the includes of a config to commits, and finding
  the commits again by git url and ref.
 */
module IncludesLock {

  datatype Result<T> = Ok(value: T) | Err

  /** An include of the config. */
  datatype Include = Include(git: string, branch: string, tag: string, commit: string)
  {
    /** includeConf.Ref; the arguments of `Ref` stand in another order than its parameters. */
    function GetRef(): Result<string> {
      Ref(commit, tag, branch)
    }

    /** What validate demands of the refs: exactly one of them is given. */
    predicate Validated() {
      && (branch != "" || tag != "" || commit != "")
      && (branch == "" || tag == "") && (branch == "" || commit == "") && (tag == "" || commit == "")
    }
  }

  /** An entry of the lock file. */
  datatype LockEntry = LockEntry(git: string, branch: string, tag: string, commit: string)
  {
    function GetRef(): Result<string> {
      Ref(tag, branch, commit)
    }
  }

  /** ref: the first of its parameters that is given. */
  function Ref(tag: string, branch: string, commit: string): Result<string> {
    if tag != "" then Ok(tag) else if branch != "" then Ok(branch) else if commit != "" then Ok(commit) else Err
  }

  function LockId(git: string, ref: string): string {
    git + "@" + ref
  }

  datatype Kind = Commit | Tag | Branch

  /** Looking a ref up in a repository gives a full commit hash, or an error. */
  type Repositories = (string, Kind, string) -> Result<string>

  /** getCommit: a commit is preferred to a tag and a tag to a branch. */
  function GetCommitOf(repos: Repositories, e: LockEntry): Result<string> {
    if e.commit != "" then repos(e.git, Commit, e.commit)
    else if e.tag != "" then repos(e.git, Tag, e.tag)
    else if e.branch != "" then repos(e.git, Branch, e.branch)
    else Err
  }

  /** updateCommit. */
  function UpdateCommit(repos: Repositories, e: LockEntry): Result<LockEntry> {
    match GetCommitOf(repos, e)
    case Err => Err
    case Ok(hash) => Ok(LockEntry(e.git, e.branch, e.tag, hash))
  }

  function Unlocked(i: Include): LockEntry {
    LockEntry(i.git, i.branch, i.tag, i.commit)
  }

  predicate AllValidated(includes: seq<Include>) {
    forall k :: 0 <= k < |includes| ==> includes[k].Validated()
  }

  /** The id under which the commit of an include is looked up. */
  function IdOf(i: Include): string
    requires i.Validated()
  {
    LockId(i.git, i.GetRef().value)
  }

  /** The index of the first include with the id of include `k`. */
  function FirstWithId(includes: seq<Include>, k: nat): (j: nat)
    requires k < |includes| && AllValidated(includes)
    ensures j <= k && IdOf(includes[j]) == IdOf(includes[k])
    ensures forall x :: 0 <= x < j ==> IdOf(includes[x]) != IdOf(includes[k])
  {
    FirstFrom(includes, k, 0)
  }

  function FirstFrom(includes: seq<Include>, k: nat, from: nat): (j: nat)
    requires from <= k < |includes| && AllValidated(includes)
    ensures from <= j <= k && IdOf(includes[j]) == IdOf(includes[k])
    ensures forall x :: from <= x < j ==> IdOf(includes[x]) != IdOf(includes[k])
    decreases k - from
  {
    if IdOf(includes[from]) == IdOf(includes[k]) then from else FirstFrom(includes, k, from + 1)
  }

  /** The includes below `n` that get an entry: the first of each id. */
  function Firsts(includes: seq<Include>, n: nat): seq<nat>
    requires n <= |includes| && AllValidated(includes)
  {
    if n == 0 then []
    else Firsts(includes, n - 1) + if FirstWithId(includes, n - 1) == n - 1 then [n - 1] else []
  }

  lemma {:induction false} FirstsAre(includes: seq<Include>, n: nat)
    requires n <= |includes| && AllValidated(includes)
    ensures forall k: nat :: k in Firsts(includes, n) <==> k < n && FirstWithId(includes, k) == k
    ensures forall a, b :: 0 <= a < b < |Firsts(includes, n)| ==> Firsts(includes, n)[a] < Firsts(includes, n)[b]
  {
    hide FirstWithId, IdOf, AllValidated;
    if n > 0 {
      FirstsAre(includes, n - 1);
      var before := Firsts(includes, n - 1);
      forall a | 0 <= a < |before| ensures before[a] < n - 1 { assert before[a] in before; }
    }
  }

  /** The lock of a config: an entry for each first include, with its commit resolved. */
  ghost predicate IsLockOf(repos: Repositories, includes: seq<Include>, lock: seq<LockEntry>)
    requires AllValidated(includes)
  {
    var firsts := Firsts(includes, |includes|);
    && |lock| == |firsts|
    && forall a :: 0 <= a < |lock| ==>
         firsts[a] < |includes| && UpdateCommit(repos, Unlocked(includes[firsts[a]])) == Ok(lock[a])
  }

  /** The ids of the first `k` includes. */
  ghost predicate Seen(includes: seq<Include>, k: nat, seen: set<string>)
    requires k <= |includes| && AllValidated(includes)
  {
    forall id :: id in seen <==> exists x :: 0 <= x < k && IdOf(includes[x]) == id
  }

  /** An entry without a commit hash for each first include below `k`. */
  ghost predicate Collected(includes: seq<Include>, k: nat, confs: seq<LockEntry>)
    requires k <= |includes| && AllValidated(includes)
  {
    var firsts := Firsts(includes, k);
    && |confs| == |firsts|
    && forall a :: 0 <= a < |firsts| ==> firsts[a] < k && confs[a] == Unlocked(includes[firsts[a]])
  }

  lemma NothingCollected(includes: seq<Include>)
    requires AllValidated(includes)
    ensures Seen(includes, 0, {}) && Collected(includes, 0, [])
  {
  }

  lemma SeenNext(includes: seq<Include>, k: nat, seen: set<string>)
    requires k < |includes| && AllValidated(includes)
    requires Seen(includes, k, seen)
    ensures Seen(includes, k + 1, seen + {IdOf(includes[k])})
    ensures IdOf(includes[k]) in seen <==> FirstWithId(includes, k) != k
  {
  }

  lemma CollectNext(includes: seq<Include>, k: nat, confs: seq<LockEntry>)
    requires k < |includes| && AllValidated(includes)
    requires Collected(includes, k, confs)
    ensures Collected(includes, k + 1, if FirstWithId(includes, k) != k then confs else confs + [Unlocked(includes[k])])
  {
    hide FirstWithId, IdOf, AllValidated;
  }

  lemma LockOfCollected(repos: Repositories, includes: seq<Include>, confs: seq<LockEntry>, lock: seq<LockEntry>)
    requires AllValidated(includes)
    requires Collected(includes, |includes|, confs)
    requires |lock| == |confs| && forall a :: 0 <= a < |confs| ==> UpdateCommit(repos, confs[a]) == Ok(lock[a])
    ensures IsLockOf(repos, includes, lock)
  {
  }

  lemma FailureOfCollected(repos: Repositories, includes: seq<Include>, confs: seq<LockEntry>)
    requires AllValidated(includes)
    requires Collected(includes, |includes|, confs)
    requires exists a :: 0 <= a < |confs| && UpdateCommit(repos, confs[a]).Err?
    ensures exists k :: k in Firsts(includes, |includes|) && k < |includes| && UpdateCommit(repos, Unlocked(includes[k])).Err?
  {
  }

  /** createLockConfig: the lock of the config, unless the commit of a first include cannot be
      resolved. */
  method CreateLockConfig(repos: Repositories, includes: seq<Include>) returns (lock: Result<seq<LockEntry>>)
    requires AllValidated(includes)
    ensures lock.Ok? ==> IsLockOf(repos, includes, lock.value)
    ensures lock.Err? <==> exists k :: k in Firsts(includes, |includes|) && k < |includes| &&
                                       UpdateCommit(repos, Unlocked(includes[k])).Err?
  {
    hide IsLockOf, Seen, Collected, UpdateCommit, FirstWithId;
    var seen: set<string> := {};
    var lockConfs: seq<LockEntry> := [];
    NothingCollected(includes);
    for k := 0 to |includes|
      invariant Seen(includes, k, seen) && Collected(includes, k, lockConfs)
    {
      var c := includes[k];
      SeenNext(includes, k, seen);
      CollectNext(includes, k, lockConfs);
      var ref := c.GetRef();
      if ref.Err? { return Err; }
      var lockId := LockId(c.git, ref.value);
      if lockId !in seen {
        lockConfs := lockConfs + [Unlocked(c)];
        seen := seen + {lockId};
      } else {
        assert seen + {lockId} == seen;
      }
    }
    lock := NewLockConfig(repos, lockConfs);
    if lock.Ok? {
      LockOfCollected(repos, includes, lockConfs, lock.value);
    } else {
      FailureOfCollected(repos, includes, lockConfs);
    }
  }

  /** newLockConfig: every entry gets its commit, unless one cannot be resolved. */
  method NewLockConfig(repos: Repositories, cfg: seq<LockEntry>) returns (lock: Result<seq<LockEntry>>)
    ensures lock.Ok? ==> |lock.value| == |cfg|
    ensures lock.Ok? ==> forall a :: 0 <= a < |cfg| ==> UpdateCommit(repos, cfg[a]) == Ok(lock.value[a])
    ensures lock.Err? <==> exists a :: 0 <= a < |cfg| && UpdateCommit(repos, cfg[a]).Err?
  {
    var updated: seq<LockEntry> := [];
    for a := 0 to |cfg|
      invariant |updated| == a
      invariant forall b :: 0 <= b < a ==> UpdateCommit(repos, cfg[b]) == Ok(updated[b])
    {
      var entry := UpdateCommit(repos, cfg[a]);
      if entry.Err? { return Err; }
      updated := updated + [entry.value];
    }
    return Ok(updated);
  }

  function EntryId(e: LockEntry): string
    requires e.GetRef().Ok?
  {
    LockId(e.git, e.GetRef().value)
  }

  predicate AllHaveRefs(lock: seq<LockEntry>) {
    forall a :: 0 <= a < |lock| ==> lock[a].GetRef().Ok?
  }

  /** What reading a lock gives: a later entry replaces an earlier one with its id. */
  function TableOf(lock: seq<LockEntry>): map<string, string>
    requires AllHaveRefs(lock)
  {
    if |lock| == 0 then map[]
    else TableOf(lock[..|lock| - 1])[EntryId(lock[|lock| - 1]) := lock[|lock| - 1].commit]
  }

  /** readLockInfo. */
  method ReadLockInfo(lock: seq<LockEntry>) returns (table: Result<map<string, string>>)
    ensures table == if AllHaveRefs(lock) then Ok(TableOf(lock)) else Err
  {
    var mapper: map<string, string> := map[];
    for a := 0 to |lock|
      invariant AllHaveRefs(lock[..a]) && mapper == TableOf(lock[..a])
    {
      var ref := lock[a].GetRef();
      if ref.Err? { return Err; }
      assert lock[..a + 1][..a] == lock[..a];
      mapper := mapper[LockId(lock[a].git, ref.value) := lock[a].commit];
    }
    assert lock[..|lock|] == lock;
    return Ok(mapper);
  }

  lemma {:induction false} TableKeys(lock: seq<LockEntry>, id: string)
    requires AllHaveRefs(lock)
    ensures id in TableOf(lock) <==> exists a :: 0 <= a < |lock| && EntryId(lock[a]) == id
  {
    if |lock| > 0 {
      var before := lock[..|lock| - 1];
      TableKeys(before, id);
      if a :| 0 <= a < |before| && EntryId(before[a]) == id { assert lock[a] == before[a]; }
      if a :| 0 <= a < |lock| && EntryId(lock[a]) == id { assert a < |before| ==> before[a] == lock[a]; }
    }
  }

  /** An entry that no later entry replaces is found with its commit. */
  lemma {:induction false} LastEntryFound(lock: seq<LockEntry>, a: nat)
    requires AllHaveRefs(lock)
    requires a < |lock|
    requires forall b :: a < b < |lock| ==> EntryId(lock[b]) != EntryId(lock[a])
    ensures EntryId(lock[a]) in TableOf(lock) && TableOf(lock)[EntryId(lock[a])] == lock[a].commit
  {
    if a < |lock| - 1 {
      var before := lock[..|lock| - 1];
      assert before[a] == lock[a];
      forall b | a < b < |before| ensures EntryId(before[b]) != EntryId(before[a]) { assert before[b] == lock[b]; }
      LastEntryFound(before, a);
    }
  }

  /** The commit that is given, if one is, is a full hash: it resolves to itself. */
  ghost predicate FullCommit(repos: Repositories, i: Include) {
    i.commit == "" || repos(i.git, Commit, i.commit) == Ok(i.commit)
  }

  /** An entry keeps the id of its include exactly when resolving does not change a commit
      that is given. */
  lemma EntryKeepsId(repos: Repositories, i: Include, e: LockEntry)
    requires i.Validated()
    requires UpdateCommit(repos, Unlocked(i)) == Ok(e)
    requires e.commit != ""
    ensures e.GetRef().Ok?
    ensures EntryId(e) == IdOf(i) <==> FullCommit(repos, i)
  {
    if i.commit != "" {
      var x, y := EntryId(e), IdOf(i);
      assert x[|e.git| + 1..] == e.commit && y[|i.git| + 1..] == i.commit;
    }
  }

  ghost predicate HashesGiven(lock: seq<LockEntry>) {
    forall a :: 0 <= a < |lock| ==> lock[a].commit != ""
  }

  /** A commit that is found is a full hash: not empty, and found again under itself. */
  ghost predicate GiveFullHashes(repos: Repositories) {
    forall git, kind, ref :: repos(git, kind, ref).Ok? ==>
      repos(git, kind, ref).value != "" && repos(git, Commit, repos(git, kind, ref).value) == repos(git, kind, ref)
  }

  lemma LockedEntries(repos: Repositories, includes: seq<Include>, lock: seq<LockEntry>)
    requires AllValidated(includes)
    requires IsLockOf(repos, includes, lock) && HashesGiven(lock)
    ensures AllHaveRefs(lock)
    ensures var firsts := Firsts(includes, |includes|);
            forall a :: 0 <= a < |lock| ==>
              && firsts[a] < |includes|
              && UpdateCommit(repos, Unlocked(includes[firsts[a]])) == Ok(lock[a])
              && (EntryId(lock[a]) == IdOf(includes[firsts[a]]) <==> FullCommit(repos, includes[firsts[a]]))
  {
    var firsts := Firsts(includes, |includes|);
    hide FullCommit, IdOf, EntryId;
    forall a | 0 <= a < |lock|
      ensures lock[a].GetRef().Ok?
      ensures EntryId(lock[a]) == IdOf(includes[firsts[a]]) <==> FullCommit(repos, includes[firsts[a]])
    {
      EntryKeepsId(repos, includes[firsts[a]], lock[a]);
    }
  }

  /** The entry of the first include with the id of include `k`. */
  lemma FirstEntry(repos: Repositories, includes: seq<Include>, lock: seq<LockEntry>, k: nat) returns (a: nat)
    requires AllValidated(includes) && k < |includes|
    requires IsLockOf(repos, includes, lock)
    ensures a < |lock| && Firsts(includes, |includes|)[a] == FirstWithId(includes, k)
  {
    hide FirstWithId, Firsts;
    FirstsAre(includes, |includes|);
    FirstOfFirst(includes, k);
    a :| 0 <= a < |lock| && Firsts(includes, |includes|)[a] == FirstWithId(includes, k);
  }

  /** A freshly created lock, read back, has a commit for every include of the config: the
      one of the first include with the same id. */
  lemma LockIsComplete(repos: Repositories, includes: seq<Include>, lock: seq<LockEntry>, k: nat)
    requires AllValidated(includes)
    requires forall x :: 0 <= x < |includes| ==> FullCommit(repos, includes[x])
    requires IsLockOf(repos, includes, lock) && HashesGiven(lock)
    requires k < |includes|
    ensures AllHaveRefs(lock)
    ensures IdOf(includes[k]) in TableOf(lock)
    ensures Ok(TableOf(lock)[IdOf(includes[k])]) == GetCommitOf(repos, Unlocked(includes[FirstWithId(includes, k)]))
  {
    hide TableOf, FirstWithId, FullCommit, Firsts;
    var firsts := Firsts(includes, |includes|);
    LockedEntries(repos, includes, lock);
    FirstsAre(includes, |includes|);
    var a := FirstEntry(repos, includes, lock, k);
    forall b | a < b < |lock| ensures EntryId(lock[b]) != EntryId(lock[a]) {
      assert firsts[b] in firsts && firsts[a] < firsts[b];
    }
    LastEntryFound(lock, a);
  }

  lemma FirstOfFirst(includes: seq<Include>, k: nat)
    requires k < |includes| && AllValidated(includes)
    ensures FirstWithId(includes, FirstWithId(includes, k)) == FirstWithId(includes, k)
  {
  }

  // ----- What is found, in terms of the config

  /** The commit that an include is locked at. */
  function CommitOf(repos: Repositories, i: Include): string {
    match GetCommitOf(repos, Unlocked(i))
    case Ok(hash) => hash
    case Err => ""
  }

  /** The one ref that a validated include gives is looked up as what it is, and the id of the
      include is its url, an at sign and that ref. */
  lemma RefsMean(repos: Repositories, i: Include)
    requires i.Validated()
    ensures i.commit != "" ==>
              && i.branch == "" && i.tag == ""
              && IdOf(i) == i.git + "@" + i.commit
              && GetCommitOf(repos, Unlocked(i)) == repos(i.git, Commit, i.commit)
    ensures i.tag != "" ==>
              && i.branch == "" && i.commit == ""
              && IdOf(i) == i.git + "@" + i.tag
              && GetCommitOf(repos, Unlocked(i)) == repos(i.git, Tag, i.tag)
    ensures i.branch != "" ==>
              && i.tag == "" && i.commit == ""
              && IdOf(i) == i.git + "@" + i.branch
              && GetCommitOf(repos, Unlocked(i)) == repos(i.git, Branch, i.branch)
    ensures i.commit != "" || i.tag != "" || i.branch != ""
  {
  }

  /** The entry of an include gives the same ref and the commit that it is looked up as. */
  lemma EntriesMean(repos: Repositories, i: Include, e: LockEntry)
    requires i.Validated()
    requires UpdateCommit(repos, Unlocked(i)) == Ok(e)
    ensures e.git == i.git && e.branch == i.branch && e.tag == i.tag
    ensures i.commit != "" ==> repos(i.git, Commit, i.commit) == Ok(e.commit)
    ensures i.tag != "" ==> repos(i.git, Tag, i.tag) == Ok(e.commit)
    ensures i.branch != "" ==> repos(i.git, Branch, i.branch) == Ok(e.commit)
  {
  }

  /** The id under which the entry of an include is read back. */
  function LockedId(repos: Repositories, i: Include): string {
    LockId(i.git, if i.tag != "" then i.tag else if i.branch != "" then i.branch else CommitOf(repos, i))
  }

  /** The include has an entry in the lock. */
  predicate HasEntry(includes: seq<Include>, f: nat)
    requires AllValidated(includes)
  {
    f < |includes| && FirstWithId(includes, f) == f
  }

  lemma EntryOf(repos: Repositories, i: Include, e: LockEntry)
    requires i.Validated()
    requires UpdateCommit(repos, Unlocked(i)) == Ok(e) && e.commit != ""
    ensures e.GetRef().Ok? && EntryId(e) == LockedId(repos, i)
    ensures e.commit == CommitOf(repos, i)
    ensures LockedId(repos, i) == IdOf(i) <==> FullCommit(repos, i)
  {
    EntryKeepsId(repos, i, e);
  }

  /** The entry of the lock for an include that has one. */
  lemma EntryAt(repos: Repositories, includes: seq<Include>, lock: seq<LockEntry>, f: nat) returns (a: nat)
    requires AllValidated(includes) && HasEntry(includes, f)
    requires IsLockOf(repos, includes, lock) && HashesGiven(lock)
    ensures AllHaveRefs(lock)
    ensures a < |lock| && Firsts(includes, |includes|)[a] == f
    ensures EntryId(lock[a]) == LockedId(repos, includes[f]) && lock[a].commit == CommitOf(repos, includes[f])
  {
    hide FirstWithId, Firsts, UpdateCommit, EntryId, IdOf, LockedId, CommitOf, FullCommit;
    LockedEntries(repos, includes, lock);
    FirstsAre(includes, |includes|);
    a :| 0 <= a < |lock| && Firsts(includes, |includes|)[a] == f;
    EntryOf(repos, includes[f], lock[a]);
  }

  /** What is found under an id is the commit of the last include whose entry has it. */
  lemma LastLocked(repos: Repositories, includes: seq<Include>, lock: seq<LockEntry>, id: string) returns (f: nat)
    requires AllValidated(includes)
    requires IsLockOf(repos, includes, lock) && HashesGiven(lock)
    requires AllHaveRefs(lock) && id in TableOf(lock)
    ensures HasEntry(includes, f) && LockedId(repos, includes[f]) == id
    ensures TableOf(lock)[id] == CommitOf(repos, includes[f])
    ensures forall g :: f < g && HasEntry(includes, g) ==> LockedId(repos, includes[g]) != id
  {
    hide TableOf, FirstWithId, Firsts, UpdateCommit, EntryId, IdOf, LockedId, CommitOf, FullCommit;
    var firsts := Firsts(includes, |includes|);
    FirstsAre(includes, |includes|);
    LockedEntries(repos, includes, lock);
    TableKeys(lock, id);
    var a := LastWithId(lock, id);
    LastEntryFound(lock, a);
    assert firsts[a] in firsts;
    f := firsts[a];
    EntryOf(repos, includes[f], lock[a]);
    forall g | f < g && HasEntry(includes, g) ensures LockedId(repos, includes[g]) != id {
      var b := EntryAt(repos, includes, lock, g);
      assert a < b;
    }
  }

  lemma LastWithId(lock: seq<LockEntry>, id: string) returns (a: nat)
    requires AllHaveRefs(lock)
    requires exists x :: 0 <= x < |lock| && EntryId(lock[x]) == id
    ensures a < |lock| && EntryId(lock[a]) == id
    ensures forall b :: a < b < |lock| ==> EntryId(lock[b]) != id
  {
    a := |lock| - 1;
    while EntryId(lock[a]) != id
      invariant a < |lock|
      invariant forall b :: a < b < |lock| ==> EntryId(lock[b]) != id
      decreases a
    {
      assert exists x :: 0 <= x < a && EntryId(lock[x]) == id;
      a := a - 1;
    }
  }

  /** An include of another repository is locked under the same text. */
  ghost predicate Collides(repos: Repositories, includes: seq<Include>, j: nat)
    requires AllValidated(includes) && j < |includes|
  {
    exists f: nat :: HasEntry(includes, f) && includes[f].git != includes[j].git &&
                LockedId(repos, includes[f]) == IdOf(includes[j])
  }

  /** The branch or tag bears the full hash of another commit as its name, and a later include
      of the repository gives that commit in an abbreviated form. */
  ghost predicate Shadowed(repos: Repositories, includes: seq<Include>, j: nat)
    requires AllValidated(includes) && j < |includes|
  {
    includes[j].commit == "" &&
    exists f :: j < f && HasEntry(includes, f) && includes[f].git == includes[j].git && includes[f].commit != "" &&
                LockId(includes[j].git, CommitOf(repos, includes[f])) == IdOf(includes[j]) &&
                CommitOf(repos, includes[f]) != CommitOf(repos, includes[j])
  }

  lemma LockIdDetermines(git: string, x: string, y: string)
    ensures LockId(git, x) == LockId(git, y) <==> x == y
  {
    assert LockId(git, x)[|git| + 1..] == x && LockId(git, y)[|git| + 1..] == y;
  }

  /** Two includes of one repository with entries, one of which is locked under the id of the
      other: it gives a commit in an abbreviated form, and the other gives its full hash. */
  lemma SameRepositorySameId(repos: Repositories, includes: seq<Include>, f: nat, j: nat)
    requires GiveFullHashes(repos)
    requires AllValidated(includes) && HasEntry(includes, f) && HasEntry(includes, j)
    requires f != j && includes[f].git == includes[j].git
    requires LockedId(repos, includes[f]) == IdOf(includes[j])
    requires CommitOf(repos, includes[f]) != ""
    ensures includes[f].commit != "" && LockedId(repos, includes[f]) == LockId(includes[j].git, CommitOf(repos, includes[f]))
    ensures FullCommit(repos, includes[j])
    ensures includes[j].commit != "" ==> CommitOf(repos, includes[f]) == CommitOf(repos, includes[j])
  {
    var x, y := includes[f], includes[j];
    assert IdOf(x) != IdOf(y) by { if IdOf(x) == IdOf(y) { SameIdSameFirst(includes, f, j); } }
    hide FirstWithId, GetCommitOf;
    LockIdDetermines(x.git, x.GetRef().value, y.GetRef().value);
    LockIdDetermines(x.git, CommitOf(repos, x), y.GetRef().value);
    assert x.commit != "";
    AbbreviatedResolves(repos, x);
    if y.commit != "" { AbbreviatedResolves(repos, y); }
  }

  lemma AbbreviatedResolves(repos: Repositories, i: Include)
    requires GiveFullHashes(repos)
    requires i.commit != ""
    ensures CommitOf(repos, i) != "" ==> repos(i.git, Commit, CommitOf(repos, i)) == Ok(CommitOf(repos, i))
    ensures repos(i.git, Commit, i.commit) == Ok(i.commit) ==> CommitOf(repos, i) == i.commit
  {
  }

  lemma EntriesHaveCommits(repos: Repositories, includes: seq<Include>, lock: seq<LockEntry>, f: nat)
    requires GiveFullHashes(repos)
    requires AllValidated(includes) && HasEntry(includes, f)
    requires IsLockOf(repos, includes, lock)
    ensures HashesGiven(lock) && AllHaveRefs(lock)
    ensures CommitOf(repos, includes[f]) != ""
    ensures LockedId(repos, includes[f]) == IdOf(includes[f]) <==> FullCommit(repos, includes[f])
    ensures LockedId(repos, includes[f]) in TableOf(lock)
  {
    hide TableOf, FirstWithId, Firsts, UpdateCommit, EntryId, IdOf, LockedId, CommitOf, FullCommit, GiveFullHashes;
    LockHasHashes(repos, includes, lock);
    LockedEntries(repos, includes, lock);
    var a := EntryAt(repos, includes, lock, f);
    EntryOf(repos, includes[f], lock[a]);
    TableKeys(lock, EntryId(lock[a]));
  }

  /** Exactly which includes of a config find a commit in its freshly created lock, and which
      find their own. A commit is found if the first include with the same id gives a branch,
      a tag or a full hash; an abbreviated commit is locked, but not found under the ref of
      the config, unless an include of another repository is locked under the same text.
      Without such an include, the commit found is that of the first include with the same id
      unless a branch or tag is shadowed. */
  lemma LockFinds(repos: Repositories, includes: seq<Include>, lock: seq<LockEntry>, k: nat)
    requires GiveFullHashes(repos)
    requires AllValidated(includes) && k < |includes|
    requires IsLockOf(repos, includes, lock)
    ensures AllHaveRefs(lock)
    ensures var j, id := FirstWithId(includes, k), IdOf(includes[k]);
            && (id in TableOf(lock) <==> FullCommit(repos, includes[j]) || Collides(repos, includes, j))
            && (!Collides(repos, includes, j) ==>
                 (id in TableOf(lock) && TableOf(lock)[id] == CommitOf(repos, includes[j]) <==>
                  FullCommit(repos, includes[j]) && !Shadowed(repos, includes, j)))
  {
    hide TableOf, FirstWithId, FullCommit, Firsts, IdOf, EntryId, GiveFullHashes, LockedId, CommitOf, IsLockOf, LockId;
    var j, id := FirstWithId(includes, k), IdOf(includes[k]);
    FirstOfFirst(includes, k);
    EntriesHaveCommits(repos, includes, lock, j);
    forall f: nat | HasEntry(includes, f)
      ensures CommitOf(repos, includes[f]) != "" && LockedId(repos, includes[f]) in TableOf(lock)
      ensures f != j && includes[f].git == includes[j].git && LockedId(repos, includes[f]) == id ==>
                && includes[f].commit != "" && id == LockId(includes[j].git, CommitOf(repos, includes[f]))
                && FullCommit(repos, includes[j])
                && (includes[j].commit != "" ==> CommitOf(repos, includes[f]) == CommitOf(repos, includes[j]))
    {
      EntriesHaveCommits(repos, includes, lock, f);
      if f != j && includes[f].git == includes[j].git && LockedId(repos, includes[f]) == id {
        SameRepositorySameId(repos, includes, f, j);
      }
    }
    if id in TableOf(lock) {
      var f := LastLocked(repos, includes, lock, id);
      if !Collides(repos, includes, j) {
        FoundIsOwn(repos, includes, j, f);
      }
    }
  }

  /** The last include locked under the id of include `j` decides what is found. */
  lemma FoundIsOwn(repos: Repositories, includes: seq<Include>, j: nat, last: nat)
    requires GiveFullHashes(repos)
    requires AllValidated(includes) && HasEntry(includes, j) && HasEntry(includes, last)
    requires FullCommit(repos, includes[j]) && LockedId(repos, includes[j]) == IdOf(includes[j])
    requires includes[last].git == includes[j].git && LockedId(repos, includes[last]) == IdOf(includes[j])
    requires forall g :: last < g && HasEntry(includes, g) ==> LockedId(repos, includes[g]) != IdOf(includes[j])
    requires CommitOf(repos, includes[last]) != ""
    ensures CommitOf(repos, includes[last]) == CommitOf(repos, includes[j]) <==> !Shadowed(repos, includes, j)
  {
    hide FirstWithId, FullCommit, IdOf, CommitOf, GiveFullHashes;
    if last != j {
      SameRepositorySameId(repos, includes, last, j);
    }
    forall f: nat | HasEntry(includes, f) && includes[f].git == includes[j].git && includes[f].commit != "" &&
               LockId(includes[j].git, CommitOf(repos, includes[f])) == IdOf(includes[j])
      ensures LockedId(repos, includes[f]) == IdOf(includes[j])
      ensures last != j ==> CommitOf(repos, includes[f]) == CommitOf(repos, includes[last])
    {
      LockIdDetermines(includes[j].git, CommitOf(repos, includes[f]), CommitOf(repos, includes[last]));
    }
  }

  lemma SameIdSameFirst(includes: seq<Include>, i: nat, k: nat)
    requires AllValidated(includes) && i < |includes| && k < |includes|
    requires IdOf(includes[i]) == IdOf(includes[k])
    ensures FirstWithId(includes, i) == FirstWithId(includes, k)
  {
    hide IdOf;
    var x, y := FirstWithId(includes, i), FirstWithId(includes, k);
    assert x >= y && y >= x;
  }

  lemma LockHasHashes(repos: Repositories, includes: seq<Include>, lock: seq<LockEntry>)
    requires GiveFullHashes(repos)
    requires AllValidated(includes)
    requires IsLockOf(repos, includes, lock)
    ensures HashesGiven(lock)
  {
    hide Firsts;
  }

  /** A repository with one commit, which can be abbreviated. */
  const ONE_COMMIT: Repositories := (git, kind, ref) => if ref == "1a2b" || ref == "1a2b3c4d" then Ok("1a2b3c4d") else Err

  const ABBREVIATED := Include("url", "", "", "1a2b")

  /** It is locked, and looking it up finds nothing. */
  lemma AbbreviatedCommitNotFound(lock: seq<LockEntry>)
    requires AllValidated([ABBREVIATED])
    requires IsLockOf(ONE_COMMIT, [ABBREVIATED], lock)
    ensures AllHaveRefs(lock)
    ensures IdOf(ABBREVIATED) !in TableOf(lock)
  {
    hide TableOf, Firsts, FirstWithId, IdOf, LockedId, CommitOf;
    LockFinds(ONE_COMMIT, [ABBREVIATED], lock, 0);
    assert FirstWithId([ABBREVIATED], 0) == 0;
  }
}
