/** The run of bin/install_megadrivers.py on a directory, entry by entry. */
module InstallRun {
  import opened FileNames
  import opened Installer

  datatype Outcome =
    | Done
    | DriverLacksSuffix(index: nat) // sys.exit in the driver loop
    | MegadriverLacksSuffix // sys.exit in the clean-up loop
    | InTheWay(name: string) // unlink of a directory raises

  /** How one pass down a chain of names ends. */
  datatype Pass = Finished | LacksSuffix | Blocked(name: string)

  class Directory {
    var entries: Entries

    constructor (e: Entries)
      ensures entries == e
    {
      entries := e;
    }

    /** `if os.path.lexists(name): os.unlink(name)`; a folder cannot be unlinked. */
    method Remove(name: string) returns (ok: bool)
      modifies this
      ensures ok <==> !(name in old(entries) && old(entries)[name] == Folder)
      ensures entries == if ok then old(entries) - {name} else old(entries)
    {
      if name in entries {
        if entries[name] == Folder {
          return false;
        }
        entries := entries - {name};
      }
      return true;
    }

    /** `os.symlink(target, name)` */
    method Symlink(target: Target, name: string)
      requires name !in entries
      modifies this
      ensures entries == old(entries)[name := Link(target)]
    {
      entries := entries[name := Link(target)];
    }

    /** The version-suffix loop of one driver, which already links to the megadriver: every name of
        its chain is replaced by a link to it. */
    method LinkVersions(d: string, suffix: string, ghost e: Entries, mega: Target) returns (r: Pass)
      requires entries == e + DriverLinks(d, {}, mega)
      modifies this
      ensures FoldersStay(old(entries), entries)
      ensures !r.Blocked? ==>
        && (r.Finished? <==> Versioned(d, suffix))
        && entries == e + DriverLinks(d, Names(Chain(d, suffix)), mega)
        && NoFolder(e, Names(Chain(d, suffix)))
      ensures r.Blocked? ==>
        && r.name in Names(Chain(d, suffix)) && r.name in e && e[r.name] == Folder
        && entries == e + DriverLinks(d, Before(d, suffix, r.name), mega)
    {
      ghost var cur, done := d, {};
      var (name, ext) := Splitext(d);
      while ext != "." + suffix
        invariant (name, ext) == Splitext(cur)
        invariant OnTheWay(d, suffix, cur, done)
        invariant entries == e + DriverLinks(d, done, mega)
        invariant NoFolder(e, done)
        decreases |cur|
      {
        if ext == "" {
          WayEnds(d, suffix, cur, done);
          LinksLoseNoFolder(e, d, done, mega);
          return LacksSuffix;
        }
        WayGoesOn(d, suffix, cur, done);
        var ok := Remove(name);
        if !ok {
          LinksLoseNoFolder(e, d, done, mega);
          return Blocked(name);
        }
        Symlink(Here(d), name);
        LinkStep(e, d, done, mega, name);
        StillNoFolder(e, DriverLinks(d, done, mega), done, name);
        done := done + {name};
        cur := name;
        var (stem, rest) := Splitext(name);
        name, ext := stem, rest;
      }
      WayEnds(d, suffix, cur, done);
      LinksLoseNoFolder(e, d, done, mega);
      return Finished;
    }

    /** One round of the driver loop. */
    method InstallDriver(d: string, suffix: string, mega: Target) returns (r: Pass)
      modifies this
      ensures FoldersStay(old(entries), entries)
      ensures !r.Blocked? ==>
        && (r.Finished? <==> Versioned(d, suffix))
        && entries == old(entries) + DriverLinks(d, Names(Chain(d, suffix)), mega)
        && NoFolder(old(entries), Touched(d, suffix))
      ensures r.Blocked? ==>
        && r.name in Touched(d, suffix) && r.name in old(entries) && old(entries)[r.name] == Folder
        && entries == if r.name == d then old(entries)
                      else old(entries) + DriverLinks(d, Before(d, suffix, r.name), mega)
    {
      var ok := Remove(d);
      if !ok {
        return Blocked(d);
      }
      Symlink(mega, d);
      FirstLink(old(entries), d, mega);
      r := LinkVersions(d, suffix, old(entries), mega);
      if r.Blocked? {
        ChainShorter(d, suffix, r.name);
      }
    }

    /** The clean-up loop: the names of the megadriver's chain go. */
    method CleanUp(basename: string, suffix: string) returns (r: Pass)
      modifies this
      ensures FoldersStay(old(entries), entries)
      ensures !r.Blocked? ==>
        && (r.Finished? <==> Versioned(basename, suffix))
        && entries == old(entries) - Names(Chain(basename, suffix))
        && NoFolder(old(entries), Names(Chain(basename, suffix)))
      ensures r.Blocked? ==>
        && r.name in Names(Chain(basename, suffix)) && r.name in old(entries) && old(entries)[r.name] == Folder
        && entries == old(entries) - Before(basename, suffix, r.name)
    {
      ghost var e, cur, done := entries, basename, {};
      var (name, ext) := Splitext(basename);
      while ext != "." + suffix
        invariant (name, ext) == Splitext(cur)
        invariant OnTheWay(basename, suffix, cur, done)
        invariant entries == e - done
        invariant NoFolder(e, done)
        invariant FoldersStay(e, entries)
        decreases |cur|
      {
        if ext == "" {
          WayEnds(basename, suffix, cur, done);
          return LacksSuffix;
        }
        WayGoesOn(basename, suffix, cur, done);
        var ok := Remove(name);
        if !ok {
          return Blocked(name);
        }
        RemoveStep(e, done, name);
        done := done + {name};
        cur := name;
        var (stem, rest) := Splitext(name);
        name, ext := stem, rest;
      }
      WayEnds(basename, suffix, cur, done);
      return Finished;
    }

    /** The driver loop. */
    method InstallDrivers(job: Job) returns (r: Outcome)
      modifies this
      ensures FoldersStay(old(entries), entries)
      ensures r == Done || r.DriverLacksSuffix? || r.InTheWay?
      ensures r == Done ==>
        && AllVersioned(job.drivers, job.suffix)
        && entries == old(entries) + Links(job.drivers, job.suffix, job.mega)
        && NoFolder(old(entries), Written(job.drivers, job.suffix))
      ensures r.DriverLacksSuffix? ==> StoppedAt(old(entries), entries, job, r.index)
      ensures r.InTheWay? ==>
        && r.name in Written(job.drivers, job.suffix) && r.name in old(entries) && old(entries)[r.name] == Folder
        && exists i :: BlockedAtDriver(old(entries), entries, job, i, r.name)
    {
      ghost var e := entries;
      for i := 0 to |job.drivers|
        invariant entries == e + Links(job.drivers[..i], job.suffix, job.mega)
        invariant AllVersioned(job.drivers[..i], job.suffix)
        invariant NoFolder(e, Written(job.drivers[..i], job.suffix))
        invariant FoldersStay(e, entries)
      {
        var d := job.drivers[i];
        NextDriver(e, job, i);
        var one := InstallDriver(d, job.suffix, job.mega);
        if one.Blocked? {
          FolderWasThere(e, job, i, one.name);
          assert BlockedAtDriver(e, entries, job, i, one.name);
          return InTheWay(one.name);
        }
        FoldersSoFar(e, job, i);
        if one.LacksSuffix? {
          return DriverLacksSuffix(i);
        }
      }
      assert job.drivers[..|job.drivers|] == job.drivers;
      return Done;
    }

    /** The whole run.  It succeeds exactly when it is possible, and then leaves exactly the installed
        directory; a name without the suffix stops it after that name's links are written; in every case
        only names within its reach change. */
    method Install(job: Job) returns (r: Outcome)
      modifies this
      ensures r == Done <==> Possible(old(entries), job)
      ensures r == Done ==> entries == Installed(old(entries), job)
      ensures r == Done ==> forall n | n in Chain(job.basename, job.suffix) :: n !in entries
      ensures r == Done || r == MegadriverLacksSuffix ==>
        PromiseKept(old(entries), entries, job.drivers, job.suffix, job.mega, Chain(job.basename, job.suffix))
      ensures r.DriverLacksSuffix? ==>
        && r.index < |job.drivers| && !Versioned(job.drivers[r.index], job.suffix)
        && PromiseKept(old(entries), entries, job.drivers[..r.index + 1], job.suffix, job.mega, [])
      ensures FoldersStay(old(entries), entries)
      ensures r.DriverLacksSuffix? ==> StoppedAt(old(entries), entries, job, r.index)
      ensures r == MegadriverLacksSuffix ==>
        && AllVersioned(job.drivers, job.suffix)
        && !Versioned(job.basename, job.suffix)
        && entries == Installed(old(entries), job)
      ensures r.InTheWay? ==>
        && r.name in Reach(job) && r.name in old(entries) && old(entries)[r.name] == Folder
        && (BlockedInCleanUp(old(entries), entries, job, r.name)
            || exists i :: BlockedAtDriver(old(entries), entries, job, i, r.name))
      ensures SameOutside(old(entries), entries, Reach(job))
    {
      ghost var e := entries;
      r := InstallDrivers(job);
      if r.DriverLacksSuffix? {
        StoppedWithinReach(e, entries, job, r.index);
        RunKeepsPromise(e, entries, job.drivers[..r.index + 1], job, []);
      } else if r.InTheWay? {
        ghost var i :| BlockedAtDriver(e, entries, job, i, r.name);
        BlockedWithinReach(e, entries, job, i, r.name);
      } else if r == Done {
        OnlyLinks(job.drivers, job.suffix, job.mega);
        var last := CleanUp(job.basename, job.suffix);
        match last {
          case Finished =>
            r := Done;
          case LacksSuffix => r := MegadriverLacksSuffix;
          case Blocked(name) => r := InTheWay(name);
        }
        if !last.Blocked? {
          RunKeepsPromise(e, entries, job.drivers, job, Chain(job.basename, job.suffix));
        }
      }
    }
  }

  lemma RunKeepsPromise(e: Entries, after: Entries, ds: seq<string>, job: Job, gone: seq<string>)
    requires after == e + Links(ds, job.suffix, job.mega) - Names(gone)
    ensures PromiseKept(e, after, ds, job.suffix, job.mega, gone)
  {
    forall n ensures Promised(e, after, ds, job.suffix, job.mega, gone, n) {
      ClosedFormKeepsPromise(e, ds, job.suffix, job.mega, gone, n);
    }
  }

  /** The first driver without the suffix is the one at `k`, and the run stopped with its links and
      those of the drivers before it written. */
  ghost predicate StoppedAt(e: Entries, after: Entries, job: Job, k: nat) {
    && k < |job.drivers|
    && AllVersioned(job.drivers[..k], job.suffix)
    && !Versioned(job.drivers[k], job.suffix)
    && after == e + Links(job.drivers[..k + 1], job.suffix, job.mega)
  }

  lemma StoppedWithinReach(e: Entries, after: Entries, job: Job, k: nat)
    requires StoppedAt(e, after, job, k)
    ensures SameOutside(e, after, Reach(job)) && !Possible(e, job)
  {
    PrefixIsWritten(job.drivers, job.suffix, k + 1);
    assert job.drivers[k] in job.drivers;
  }

  /** One more driver: its links overrule the earlier ones. */
  lemma NextDriver(e: Entries, job: Job, i: nat)
    requires i < |job.drivers|
    ensures var d := job.drivers[i];
      && Written(job.drivers[..i + 1], job.suffix) == Written(job.drivers[..i], job.suffix) + Touched(d, job.suffix)
      && Written(job.drivers[..i + 1], job.suffix) <= Written(job.drivers, job.suffix)
      && e + Links(job.drivers[..i], job.suffix, job.mega) + DriverLinks(d, Names(Chain(d, job.suffix)), job.mega)
         == e + Links(job.drivers[..i + 1], job.suffix, job.mega)
  {
    var front := job.drivers[..i + 1];
    assert front[..|front| - 1] == job.drivers[..i] && front[|front| - 1] == job.drivers[i];
    PrefixIsWritten(job.drivers, job.suffix, i + 1);
    MergeAssociates(e, Links(job.drivers[..i], job.suffix, job.mega),
      DriverLinks(job.drivers[i], Names(Chain(job.drivers[i], job.suffix)), job.mega));
  }

  lemma MergeAssociates(a: Entries, b: Entries, c: Entries)
    ensures a + b + c == a + (b + c)
  {
  }

  /** The names of a chain that are reached before `name`: the longer ones. */
  function Before(d: string, suffix: string, name: string): set<string> {
    Longer(Names(Chain(d, suffix)), |name|)
  }

  function Longer(names: set<string>, k: nat): set<string> {
    set n | n in names && |n| > k
  }

  lemma ChainBelow(cur: string, suffix: string, n: string)
    requires Splitext(cur).1 != "" && Splitext(cur).1 != "." + suffix
    requires n in Names(Chain(cur, suffix))
    ensures |n| <= |Splitext(cur).0|
  {
    var name := Splitext(cur).0;
    if n != name {
      ChainStep(cur, suffix);
      ChainShorter(name, suffix, n);
    }
  }

  /** What remains of a chain is shorter than what is done. */
  lemma RestIsShorter(cur: string, suffix: string)
    requires Splitext(cur).1 != "" && Splitext(cur).1 != "." + suffix
    ensures forall n | n in Names(Chain(cur, suffix)) :: |n| <= |Splitext(cur).0|
  {
    forall n | n in Names(Chain(cur, suffix)) ensures |n| <= |Splitext(cur).0| {
      ChainBelow(cur, suffix, n);
    }
  }

  lemma LongerPart(long: set<string>, short: set<string>, all: set<string>, k: nat)
    requires long + short == all
    requires (forall n | n in long :: |n| > k) && (forall n | n in short :: |n| <= k)
    ensures long == Longer(all, k)
  {
  }

  /** The run met a folder at `name` while installing driver `i`: the earlier drivers are installed, and
      of driver `i` the links of the names before `name`. */
  ghost predicate BlockedAtDriver(e: Entries, after: Entries, job: Job, i: nat, name: string) {
    && i < |job.drivers|
    && AllVersioned(job.drivers[..i], job.suffix)
    && var d, before := job.drivers[i], e + Links(job.drivers[..i], job.suffix, job.mega);
       && name in Touched(d, job.suffix)
       && after == if name == d then before
                   else before + DriverLinks(d, Before(d, job.suffix, name), job.mega)
  }

  /** The run met a folder at `name` while cleaning up: every driver is installed, and the names before
      `name` are gone. */
  ghost predicate BlockedInCleanUp(e: Entries, after: Entries, job: Job, name: string) {
    && AllVersioned(job.drivers, job.suffix)
    && name in Chain(job.basename, job.suffix)
    && after == e + Links(job.drivers, job.suffix, job.mega) - Before(job.basename, job.suffix, name)
  }

  lemma BlockedWithinReach(e: Entries, after: Entries, job: Job, i: nat, name: string)
    requires BlockedAtDriver(e, after, job, i, name)
    ensures SameOutside(e, after, Reach(job))
  {
    NextDriver(e, job, i);
  }

  /** A folder met in a later round was there from the start. */
  lemma FolderWasThere(e: Entries, job: Job, i: nat, n: string)
    requires i < |job.drivers|
    requires var d, before := job.drivers[i], e + Links(job.drivers[..i], job.suffix, job.mega);
      n in Touched(d, job.suffix) && n in before && before[n] == Folder
    ensures n in Written(job.drivers, job.suffix) && n in e && e[n] == Folder
  {
    NextDriver(e, job, i);
    OnlyLinks(job.drivers[..i], job.suffix, job.mega);
  }

  lemma FoldersSoFar(e: Entries, job: Job, i: nat)
    requires i < |job.drivers|
    requires NoFolder(e, Written(job.drivers[..i], job.suffix))
    requires NoFolder(e + Links(job.drivers[..i], job.suffix, job.mega), Touched(job.drivers[i], job.suffix))
    ensures NoFolder(e, Written(job.drivers[..i + 1], job.suffix))
  {
    NextDriver(e, job, i);
    var before := e + Links(job.drivers[..i], job.suffix, job.mega);
    forall n | n in Written(job.drivers[..i + 1], job.suffix) && n in e ensures e[n] != Folder {
      if n !in Written(job.drivers[..i], job.suffix) {
        assert n in before && before[n] == e[n];
      }
    }
  }

  lemma {:induction false} OnlyLinks(ds: seq<string>, suffix: string, mega: Target)
    ensures forall n | n in Links(ds, suffix, mega) :: Links(ds, suffix, mega)[n].Link?
  {
    if ds != [] {
      OnlyLinks(ds[..|ds| - 1], suffix, mega);
    }
  }

  /** A pass down the chain of `d` has dealt with `done` and stands at `cur`. */
  ghost predicate OnTheWay(d: string, suffix: string, cur: string, done: set<string>) {
    && done + Names(Chain(cur, suffix)) == Names(Chain(d, suffix))
    && (Versioned(d, suffix) <==> Versioned(cur, suffix))
    && (forall n | n in done :: |n| >= |cur|)
  }

  lemma WayEnds(d: string, suffix: string, cur: string, done: set<string>)
    requires OnTheWay(d, suffix, cur, done)
    requires Splitext(cur).1 == "" || Splitext(cur).1 == "." + suffix
    ensures done == Names(Chain(d, suffix))
    ensures Versioned(d, suffix) <==> Splitext(cur).1 == "." + suffix
  {
    ChainEnd(cur, suffix);
  }

  lemma WayGoesOn(d: string, suffix: string, cur: string, done: set<string>)
    requires OnTheWay(d, suffix, cur, done)
    requires Splitext(cur).1 != "" && Splitext(cur).1 != "." + suffix
    ensures var name := Splitext(cur).0;
      && name in Names(Chain(d, suffix)) && name != d
      && OnTheWay(d, suffix, name, done + {name})
      && done == Before(d, suffix, name)
  {
    var name := Splitext(cur).0;
    ChainStep(cur, suffix);
    ChainShorter(d, suffix, name);
    RestIsShorter(cur, suffix);
    LongerPart(done, Names(Chain(cur, suffix)), Names(Chain(d, suffix)), |name|);
  }

  lemma ChainEnd(cur: string, suffix: string)
    requires Splitext(cur).1 == "" || Splitext(cur).1 == "." + suffix
    ensures Names(Chain(cur, suffix)) == {}
  {
  }

  lemma ChainStep(cur: string, suffix: string)
    requires Splitext(cur).1 != "" && Splitext(cur).1 != "." + suffix
    ensures Names(Chain(cur, suffix)) == {Splitext(cur).0} + Names(Chain(Splitext(cur).0, suffix))
  {
  }

  /** Replacing one more name of the chain. */
  lemma LinkStep(e: Entries, d: string, done: set<string>, mega: Target, name: string)
    requires name != d
    ensures (e + DriverLinks(d, done, mega) - {name})[name := Link(Here(d))]
         == e + DriverLinks(d, done + {name}, mega)
  {
  }

  lemma StillNoFolder(e: Entries, links: Entries, done: set<string>, name: string)
    requires NoFolder(e, done)
    requires name !in links || name in done
    requires name in e + links ==> (e + links)[name] != Folder
    ensures NoFolder(e, done + {name})
  {
  }

  lemma LinksLoseNoFolder(e: Entries, d: string, done: set<string>, mega: Target)
    requires NoFolder(e, done)
    ensures FoldersStay(e + DriverLinks(d, {}, mega), e + DriverLinks(d, done, mega))
  {
  }

  lemma RemoveStep(e: Entries, done: set<string>, name: string)
    requires NoFolder(e, done) && (name in e - done ==> e[name] != Folder)
    ensures e - done - {name} == e - (done + {name})
    ensures NoFolder(e, done + {name})
  {
  }

  lemma FirstLink(e: Entries, d: string, mega: Target)
    ensures (e - {d})[d := Link(mega)] == e + DriverLinks(d, {}, mega)
  {
  }

  /** Nothing changed outside `touched`. */
  ghost predicate SameOutside(a: Entries, b: Entries, touched: set<string>) {
    forall n | n !in touched :: (n in a <==> n in b) && (n in a ==> a[n] == b[n])
  }
}
