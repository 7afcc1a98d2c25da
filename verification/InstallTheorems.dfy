/** What a successful run of the installer guarantees about the links in the directory. */
module InstallTheorems {
  import opened FileNames
  import opened Installer
  import opened InstallRun

  datatype Option<T> = None | Some(value: T)

  // ---------------------------------------------------------------- following links

  /** The name reached from `n` by following `k` links within the directory. */
  function Walk(e: Entries, n: string, k: nat): Option<string> {
    if k == 0 then Some(n)
    else
      match Walk(e, n, k - 1)
      case None => None
      case Some(m) => Next(e, m)
  }

  function Next(e: Entries, m: string): Option<string> {
    if m in e && e[m].Link? && e[m].target.Here? then Some(e[m].target.name) else None
  }

  /** After `k` links, `n` is at the megadriver: at its file, or at a link that leaves the directory
      for it. */
  ghost predicate ArrivesAfter(e: Entries, n: string, k: nat, mega: Target) {
    match Walk(e, n, k)
    case None => false
    case Some(m) =>
      m in e && if mega.Here? then m == mega.name && e[m] == File else e[m] == Link(mega)
  }

  ghost predicate Resolves(e: Entries, n: string, mega: Target) {
    exists k: nat :: ArrivesAfter(e, n, k, mega)
  }

  ghost predicate OnCycle(e: Entries, n: string) {
    exists k: nat :: k > 0 && Walk(e, n, k) == Some(n)
  }

  lemma {:induction false} WalkSplit(e: Entries, n: string, i: nat, j: nat)
    ensures Walk(e, n, i + j)
         == match Walk(e, n, i) case None => None case Some(m) => Walk(e, m, j)
  {
    if j > 0 {
      WalkSplit(e, n, i, j - 1);
      assert i + j - 1 == i + (j - 1);
    }
  }

  lemma {:induction false} CycleNeverEnds(e: Entries, n: string, k: nat, i: nat)
    requires k > 0 && Walk(e, n, k) == Some(n)
    ensures Walk(e, n, i).Some?
    decreases i
  {
    if i <= k {
      WalkSplit(e, n, i, k - i);
    } else {
      CycleNeverEnds(e, n, k, i - k);
      WalkSplit(e, n, k, i - k);
    }
  }

  // ---------------------------------------------------------------- resolution

  /** A surviving name is a link to the megadriver, or to a surviving driver that is. */
  lemma SurvivorLinks(e: Entries, job: Job, n: string)
    requires n in Survivors(job)
    ensures var after := Installed(e, job);
      && n in after
      && (after[n] == Link(job.mega)
          || exists d :: d in job.drivers && d in Survivors(job) && n <= d && |n| < |d|
                         && after[n] == Link(Here(d)) && d in after && after[d] == Link(job.mega))
  {
    LinksAreShort(job.drivers, job.suffix, job.mega, n);
    var m := Links(job.drivers, job.suffix, job.mega);
    if m[n] != Link(job.mega) {
      var d :| d in job.drivers && n in Chain(d, job.suffix) && m[n] == Link(Here(d)) && d in m && m[d] == Link(job.mega);
      DriverSurvives(job, d, n);
      SurvivorEntry(e, job, d);
    }
    SurvivorEntry(e, job, n);
  }

  /** A driver that a surviving name links to survives, since the clean-up takes the names of its chain
      along with it. */
  lemma DriverSurvives(job: Job, d: string, n: string)
    requires n in Survivors(job) && n in Chain(d, job.suffix) && d in Written(job.drivers, job.suffix)
    ensures d in Survivors(job) && n <= d && |n| < |d|
  {
    ChainShorter(d, job.suffix, n);
    if d in Chain(job.basename, job.suffix) {
      ChainTransitive(job.basename, job.suffix, d, n);
    }
  }

  lemma SurvivorEntry(e: Entries, job: Job, n: string)
    requires n in Survivors(job)
    ensures n in Installed(e, job)
    ensures Installed(e, job)[n] == Links(job.drivers, job.suffix, job.mega)[n]
  {
  }

  lemma BasenameStays(job: Job)
    ensures job.basename !in Chain(job.basename, job.suffix)
  {
    if job.basename in Chain(job.basename, job.suffix) {
      ChainShorter(job.basename, job.suffix, job.basename);
    }
  }

  /** When the run writes over the megadriver itself. */
  ghost predicate Overwrites(job: Job) {
    job.SameDirectory() && job.basename in Written(job.drivers, job.suffix)
  }

  /** Unless the run overwrites the megadriver, every name it wrote and left resolves to it, within
      two links. */
  lemma SurvivorResolves(e: Entries, job: Job, n: string)
    requires job.Valid() && !Overwrites(job) && n in Survivors(job)
    requires job.SameDirectory() ==> job.basename in e && e[job.basename] == File
    ensures exists k: nat :: k <= 2 && ArrivesAfter(Installed(e, job), n, k, job.mega)
  {
    var after := Installed(e, job);
    SurvivorLinks(e, job, n);
    BasenameStays(job);
    assert Walk(after, n, 0) == Some(n);
    if after[n] == Link(job.mega) {
      if job.SameDirectory() {
        assert Walk(after, n, 1) == Some(job.basename);
        assert ArrivesAfter(after, n, 1, job.mega);
      } else {
        assert ArrivesAfter(after, n, 0, job.mega);
      }
    } else {
      var d :| d in job.drivers && after[n] == Link(Here(d)) && d in after && after[d] == Link(job.mega);
      assert Walk(after, n, 1) == Some(d);
      if job.SameDirectory() {
        assert Walk(after, n, 2) == Some(job.basename);
        assert ArrivesAfter(after, n, 2, job.mega);
      } else {
        assert ArrivesAfter(after, n, 1, job.mega);
      }
    }
  }

  /** The exact condition: every surviving name resolves if and only if the run does not overwrite the
      megadriver; if it does, no name at all resolves to it. */
  lemma ResolutionExact(e: Entries, job: Job)
    requires job.Valid() && (job.SameDirectory() ==> job.basename in e && e[job.basename] == File)
    ensures (forall n | n in Survivors(job) :: Resolves(Installed(e, job), n, job.mega)) <==> !Overwrites(job)
    ensures Overwrites(job) ==> forall n :: !Resolves(Installed(e, job), n, job.mega)
  {
    var after := Installed(e, job);
    BasenameStays(job);
    if Overwrites(job) {
      SurvivorLinks(e, job, job.basename);
      assert job.basename in Survivors(job);
      assert forall n, k: nat :: !ArrivesAfter(after, n, k, job.mega);
    } else {
      forall n | n in Survivors(job) ensures Resolves(after, n, job.mega) {
        SurvivorResolves(e, job, n);
      }
    }
  }

  lemma {:induction false} RemovedStaysHome(e: Entries, n: string, k: nat)
    requires n !in e && k > 0
    ensures Walk(e, n, k) == None
  {
    if k > 1 {
      RemovedStaysHome(e, n, k - 1);
    } else {
      assert Walk(e, n, 0) == Some(n);
    }
  }

  /** Every driver resolves after the run if and only if the run does not overwrite the megadriver and
      no driver is one of the shorter megadriver names that the clean-up removes. */
  lemma EveryDriverResolves(e: Entries, job: Job)
    requires job.Valid() && (job.SameDirectory() ==> job.basename in e && e[job.basename] == File)
    ensures (forall d | d in job.drivers :: Resolves(Installed(e, job), d, job.mega))
       <==> !Overwrites(job) && forall d | d in job.drivers :: d !in Chain(job.basename, job.suffix)
  {
    var after := Installed(e, job);
    ResolutionExact(e, job);
    forall d | d in job.drivers
      ensures d in Chain(job.basename, job.suffix) ==> !Resolves(after, d, job.mega)
      ensures d !in Chain(job.basename, job.suffix) ==> d in Survivors(job)
    {
      DriverIsWritten(job.drivers, job.suffix, d);
      if d in Chain(job.basename, job.suffix) {
        forall k: nat ensures !ArrivesAfter(after, d, k, job.mega) {
          if k > 0 {
            RemovedStaysHome(after, d, k);
          }
        }
      }
    }
    if Overwrites(job) {
      assert job.drivers != [];
      assert job.drivers[0] in job.drivers;
    }
  }

  /** A driver that is the megadriver's own name, installed into the megadriver's directory, replaces
      the library by a link to itself. */
  lemma OverwriteExample()
    ensures var job := Job(["mega.so"], "mega.so", "so", Here("mega.so"));
      && job.Valid()
      && Possible(map["mega.so" := File], job)
      && Installed(map["mega.so" := File], job) == map["mega.so" := Link(Here("mega.so"))]
      && OnCycle(Installed(map["mega.so" := File], job), "mega.so")
  {
    var name := "mega.so";
    var job := Job([name], name, "so", Here(name));
    assert name[4] == '.';
    assert LastDot(name) == 4;
    assert name[0] == 'm';
    assert !AllDots(name[..4]);
    assert name[4..] == ".so";
    assert Splitext(name) == (name[..4], ".so");
    assert Chain(name, "so") == [];
    assert job.drivers[..0] == [];
    assert Written(job.drivers[..0], "so") == {};
    assert Written(job.drivers, "so") == {name};
    var after := Installed(map[name := File], job);
    assert Links(job.drivers[..0], "so", job.mega) == map[];
    assert after == map[name := Link(Here(name))];
    assert Walk(after, name, 0) == Some(name);
    assert Walk(after, name, 1) == Some(name);
  }

  // ---------------------------------------------------------------- cycles

  /** Whoever reaches a surviving name is out of links three steps later. */
  lemma SurvivorStops(e: Entries, job: Job, n: string)
    requires job.Valid() && !Overwrites(job) && n in Survivors(job)
    requires job.SameDirectory() ==> job.basename in e && e[job.basename] == File
    ensures Walk(Installed(e, job), n, 3) == None
  {
    var after := Installed(e, job);
    SurvivorLinks(e, job, n);
    BasenameStays(job);
    assert Walk(after, n, 0) == Some(n);
    if job.SameDirectory() {
      assert Next(after, job.basename) == None;
    }
    if after[n] == Link(job.mega) {
      assert Walk(after, n, 1) == Next(after, n);
      assert Walk(after, n, 2) == None;
    } else {
      var d :| d in job.drivers && after[n] == Link(Here(d)) && d in after && after[d] == Link(job.mega);
      assert Walk(after, n, 1) == Some(d);
      assert Walk(after, n, 2) == Next(after, d);
    }
  }

  /** The names on a cycle were left alone by the run. */
  lemma CycleAvoidsSurvivors(e: Entries, job: Job, n: string, k: nat, j: nat)
    requires job.Valid() && !Overwrites(job)
    requires job.SameDirectory() ==> job.basename in e && e[job.basename] == File
    requires k > 0 && Walk(Installed(e, job), n, k) == Some(n)
    ensures Walk(Installed(e, job), n, j).Some?
    ensures Walk(Installed(e, job), n, j).value !in Survivors(job)
  {
    var after := Installed(e, job);
    CycleNeverEnds(after, n, k, j);
    CycleNeverEnds(after, n, k, j + 3);
    WalkSplit(after, n, j, 3);
    var m := Walk(after, n, j).value;
    if m in Survivors(job) {
      SurvivorStops(e, job, m);
    }
  }

  lemma UntouchedNext(e: Entries, job: Job, m: string)
    requires m !in Survivors(job) && Next(Installed(e, job), m).Some?
    ensures Next(e, m) == Next(Installed(e, job), m)
  {
  }

  /** Two directories that agree on the links of a walk agree on where it leads. */
  lemma {:induction false} WalkAgrees(e: Entries, after: Entries, n: string, j: nat)
    requires forall i: nat | i < j ::
      Walk(after, n, i).Some? && Next(e, Walk(after, n, i).value) == Next(after, Walk(after, n, i).value)
    ensures Walk(e, n, j) == Walk(after, n, j)
  {
    if j > 0 {
      WalkAgrees(e, after, n, j - 1);
    }
  }

  lemma CycleStepWasThere(e: Entries, job: Job, n: string, k: nat, i: nat)
    requires job.Valid() && !Overwrites(job)
    requires job.SameDirectory() ==> job.basename in e && e[job.basename] == File
    requires k > 0 && Walk(Installed(e, job), n, k) == Some(n)
    ensures var after := Installed(e, job);
      && Walk(after, n, i).Some?
      && Next(e, Walk(after, n, i).value) == Next(after, Walk(after, n, i).value)
  {
    CycleAvoidsSurvivors(e, job, n, k, i);
    CycleAvoidsSurvivors(e, job, n, k, i + 1);
    UntouchedNext(e, job, Walk(Installed(e, job), n, i).value);
  }

  /** A run that does not overwrite the megadriver introduces no cycle anywhere in the directory. */
  lemma NoNewCycle(e: Entries, job: Job, n: string)
    requires job.Valid() && !Overwrites(job)
    requires job.SameDirectory() ==> job.basename in e && e[job.basename] == File
    requires OnCycle(Installed(e, job), n)
    ensures OnCycle(e, n)
  {
    var k: nat :| k > 0 && Walk(Installed(e, job), n, k) == Some(n);
    forall i: nat | i < k
      ensures var after := Installed(e, job);
        && Walk(after, n, i).Some?
        && Next(e, Walk(after, n, i).value) == Next(after, Walk(after, n, i).value)
    {
      CycleStepWasThere(e, job, n, k, i);
    }
    WalkAgrees(e, Installed(e, job), n, k);
  }

  /** A run that overwrites the megadriver leaves it on a cycle. */
  lemma OverwritingMakesACycle(e: Entries, job: Job)
    requires Overwrites(job)
    ensures OnCycle(Installed(e, job), job.basename)
  {
    var after, b := Installed(e, job), job.basename;
    BasenameStays(job);
    SurvivorLinks(e, job, b);
    assert Walk(after, b, 0) == Some(b);
    if after[b] == Link(job.mega) {
      assert Walk(after, b, 1) == Some(b);
    } else {
      var d :| d in job.drivers && after[b] == Link(Here(d)) && d in after && after[d] == Link(job.mega);
      assert Walk(after, b, 1) == Some(d);
      assert Walk(after, b, 2) == Some(b);
    }
  }

  // ---------------------------------------------------------------- repetition

  /** A second run succeeds and changes nothing. */
  lemma InstallIdempotent(e: Entries, job: Job)
    requires Possible(e, job)
    ensures Possible(Installed(e, job), job)
    ensures Installed(Installed(e, job), job) == Installed(e, job)
  {
    OnlyLinks(job.drivers, job.suffix, job.mega);
  }

  method InstallTwice(dir: Directory, job: Job) returns (first: Outcome, second: Outcome)
    modifies dir
    ensures first == Done ==> second == Done
    ensures first == Done ==> dir.entries == Installed(old(dir.entries), job)
  {
    ghost var e := dir.entries;
    first := dir.Install(job);
    second := first;
    if first == Done {
      InstallIdempotent(e, job);
      second := dir.Install(job);
    }
  }
}
