/** The driver links that bin/install_megadrivers.py leaves in a directory: what the three loops
    compute, as a function of the directory they start from. */
module Installer {
  import opened FileNames

  /** Where a link points: to a name in its own directory, or along a path out of it. */
  datatype Target = Here(name: string) | Path(path: string)

  datatype Entry = File | Folder | Link(target: Target)

  type Entries = map<string, Entry>

  /** The command line, with the link target that leads from the driver directory to the
      megadriver.  It is the megadriver's own name when both are in one directory. */
  datatype Job = Job(drivers: seq<string>, basename: string, suffix: string, mega: Target) {
    ghost predicate SameDirectory() {
      mega == Here(basename)
    }

    /** The link target is computed from two directories: it names the megadriver here, or leads away. */
    ghost predicate Valid() {
      mega.Path? || SameDirectory()
    }
  }

  function Names(s: seq<string>): set<string> {
    set n | n in s
  }

  /** The names installing one driver writes. */
  function Touched(d: string, suffix: string): set<string> {
    {d} + Names(Chain(d, suffix))
  }

  /** The names a run writes. */
  function Written(ds: seq<string>, suffix: string): set<string> {
    if ds == [] then {} else Written(ds[..|ds| - 1], suffix) + Touched(ds[|ds| - 1], suffix)
  }

  /** The links of one driver: itself to the megadriver, `done` to itself. */
  function DriverLinks(d: string, done: set<string>, mega: Target): Entries {
    map n | n in {d} + done :: if n == d then Link(mega) else Link(Here(d))
  }

  /** The links a run writes: a later driver overrules an earlier one. */
  function Links(ds: seq<string>, suffix: string, mega: Target): (m: Entries)
    ensures m.Keys == Written(ds, suffix)
  {
    if ds == [] then map[]
    else
      var d := ds[|ds| - 1];
      Links(ds[..|ds| - 1], suffix, mega) + DriverLinks(d, Names(Chain(d, suffix)), mega)
  }

  /** The directory after a successful run. */
  function Installed(e: Entries, job: Job): Entries {
    e + Links(job.drivers, job.suffix, job.mega) - Names(Chain(job.basename, job.suffix))
  }

  /** The names the run wrote that its clean-up left. */
  function Survivors(job: Job): set<string> {
    Written(job.drivers, job.suffix) - Names(Chain(job.basename, job.suffix))
  }

  /** Every name the run may change. */
  function Reach(job: Job): set<string> {
    Written(job.drivers, job.suffix) + Names(Chain(job.basename, job.suffix))
  }

  ghost predicate AllVersioned(ds: seq<string>, suffix: string) {
    forall d | d in ds :: Versioned(d, suffix)
  }

  ghost predicate NoFolder(e: Entries, names: set<string>) {
    forall n | n in names && n in e :: e[n] != Folder
  }

  /** Nothing stops the run: every driver and the megadriver carry the suffix, and no folder is in
      the way. */
  ghost predicate Possible(e: Entries, job: Job) {
    && AllVersioned(job.drivers, job.suffix)
    && Versioned(job.basename, job.suffix)
    && NoFolder(e, Reach(job))
  }

  // ---------------------------------------------------------------- the directory, name by name

  /** Installing driver `d` writes the name `n`. */
  predicate Reaches(d: string, suffix: string, n: string) {
    n == d || n in Chain(d, suffix)
  }

  /** Of the drivers that write `n`, the last is the one at `i`. */
  predicate LastReaching(ds: seq<string>, suffix: string, n: string, i: nat) {
    && i < |ds|
    && Reaches(ds[i], suffix, n)
    && forall j | i < j < |ds| :: !Reaches(ds[j], suffix, n)
  }

  /** `entry` is the link that the last driver writing `n` gives it: to the megadriver from the driver's
      own name, to the driver from a shorter one. */
  ghost predicate LinkedByLast(ds: seq<string>, suffix: string, mega: Target, n: string, entry: Entry) {
    exists i: nat :: LastReaching(ds, suffix, n, i) && entry == Link(if n == ds[i] then mega else Here(ds[i]))
  }

  /** What the run promises for the name `n` once the drivers `ds` are installed and the names `gone`
      cleaned up: it is gone; or it is linked by the last driver that writes it; or it is as before. */
  ghost predicate Promised(before: Entries, after: Entries, ds: seq<string>, suffix: string, mega: Target,
    gone: seq<string>, n: string)
  {
    if n in gone then n !in after
    else if exists d :: d in ds && Reaches(d, suffix, n) then
      n in after && LinkedByLast(ds, suffix, mega, n, after[n])
    else
      (n in after <==> n in before) && (n in after ==> after[n] == before[n])
  }

  ghost predicate PromiseKept(before: Entries, after: Entries, ds: seq<string>, suffix: string, mega: Target,
    gone: seq<string>)
  {
    forall n :: Promised(before, after, ds, suffix, mega, gone, n)
  }

  /** No folder is lost. */
  ghost predicate FoldersStay(before: Entries, after: Entries) {
    forall n | n in before && before[n] == Folder :: n in after && after[n] == Folder
  }

  // ---------------------------------------------------------------- facts about the links

  lemma {:induction false} DriverIsWritten(ds: seq<string>, suffix: string, d: string)
    requires d in ds
    ensures Touched(d, suffix) <= Written(ds, suffix)
  {
    if d != ds[|ds| - 1] {
      DriverIsWritten(ds[..|ds| - 1], suffix, d);
    }
  }

  lemma {:induction false} PrefixIsWritten(ds: seq<string>, suffix: string, k: nat)
    requires k <= |ds|
    ensures Written(ds[..k], suffix) <= Written(ds, suffix)
  {
    if k < |ds| {
      var front := ds[..|ds| - 1];
      PrefixIsWritten(front, suffix, k);
      assert front[..k] == ds[..k];
    } else {
      assert ds[..k] == ds;
    }
  }

  /** `n` links to the megadriver, or to a longer driver name that itself links to the megadriver. */
  ghost predicate IsShort(ds: seq<string>, suffix: string, mega: Target, n: string)
    requires n in Written(ds, suffix)
  {
    var m := Links(ds, suffix, mega);
    || m[n] == Link(mega)
    || exists d :: d in ds && n in Chain(d, suffix) && m[n] == Link(Here(d)) && d in m && m[d] == Link(mega)
  }

  /** Whatever the order of the drivers and however their chains overlap, every written name is a
      short link. */
  lemma {:induction false} LinksAreShort(ds: seq<string>, suffix: string, mega: Target, n: string)
    requires n in Written(ds, suffix)
    ensures IsShort(ds, suffix, mega, n)
  {
    var front, last := ds[..|ds| - 1], ds[|ds| - 1];
    if n != last && n !in Chain(last, suffix) {
      LinksAreShort(front, suffix, mega, n);
    }
    LinkStaysShort(ds, suffix, mega, n);
  }

  /** One more driver leaves links short: where it overwrites a driver that others link to, it has
      taken over those links as well. */
  lemma LinkStaysShort(ds: seq<string>, suffix: string, mega: Target, n: string)
    requires n in Written(ds, suffix)
    requires var front, last := ds[..|ds| - 1], ds[|ds| - 1];
      n == last || n in Chain(last, suffix)
      || (n in Written(front, suffix) && IsShort(front, suffix, mega, n))
    ensures IsShort(ds, suffix, mega, n)
  {
    var front, last := ds[..|ds| - 1], ds[|ds| - 1];
    var was, m := Links(front, suffix, mega), Links(ds, suffix, mega);
    LastDriverLinks(ds, suffix, mega, n);
    LastDriverLinks(ds, suffix, mega, last);
    if n in Chain(last, suffix) {
      ChainShorter(last, suffix, n);
    } else if n != last && was[n] != Link(mega) {
      var d :| d in front && n in Chain(d, suffix) && was[n] == Link(Here(d)) && d in was && was[d] == Link(mega);
      if d in Chain(last, suffix) {
        ChainTransitive(last, suffix, d, n);
      }
      LastDriverLinks(ds, suffix, mega, d);
      assert d in ds && m[d] == Link(mega);
    }
  }

  /** The last driver's links overrule the others, which stay as they were. */
  lemma LastDriverLinks(ds: seq<string>, suffix: string, mega: Target, n: string)
    requires ds != []
    ensures var front, last := ds[..|ds| - 1], ds[|ds| - 1];
      var was, m := Links(front, suffix, mega), Links(ds, suffix, mega);
      if n == last then n in m && m[n] == Link(mega)
      else if n in Chain(last, suffix) then n in m && m[n] == Link(Here(last))
      else (n in m <==> n in was) && (n in m ==> m[n] == was[n])
  {
  }

  lemma {:induction false} WrittenMeansReached(ds: seq<string>, suffix: string, n: string)
    ensures n in Written(ds, suffix) <==> exists d :: d in ds && Reaches(d, suffix, n)
  {
    if ds != [] {
      var front, last := ds[..|ds| - 1], ds[|ds| - 1];
      WrittenMeansReached(front, suffix, n);
      if n in Touched(last, suffix) {
        assert last in ds && Reaches(last, suffix, n);
      }
      forall d | d in ds && Reaches(d, suffix, n) ensures d in front || n in Touched(last, suffix) {
      }
    }
  }

  lemma LinkedAtEnd(ds: seq<string>, suffix: string, mega: Target, n: string)
    requires ds != [] && Reaches(ds[|ds| - 1], suffix, n)
    ensures LinkedByLast(ds, suffix, mega, n, Link(if n == ds[|ds| - 1] then mega else Here(ds[|ds| - 1])))
  {
    assert LastReaching(ds, suffix, n, |ds| - 1);
  }

  lemma LinkedEarlier(ds: seq<string>, suffix: string, mega: Target, n: string, entry: Entry)
    requires ds != [] && !Reaches(ds[|ds| - 1], suffix, n)
    requires LinkedByLast(ds[..|ds| - 1], suffix, mega, n, entry)
    ensures LinkedByLast(ds, suffix, mega, n, entry)
  {
    var front := ds[..|ds| - 1];
    var i: nat :| LastReaching(front, suffix, n, i) && entry == Link(if n == front[i] then mega else Here(front[i]));
    assert LastReaching(ds, suffix, n, i) && ds[i] == front[i];
  }

  /** Every written name carries the link of the last driver that writes it. */
  lemma {:induction false} LinksAreByLast(ds: seq<string>, suffix: string, mega: Target, n: string)
    requires n in Written(ds, suffix)
    ensures LinkedByLast(ds, suffix, mega, n, Links(ds, suffix, mega)[n])
  {
    var front, last := ds[..|ds| - 1], ds[|ds| - 1];
    LastDriverLinks(ds, suffix, mega, n);
    if Reaches(last, suffix, n) {
      LinkedAtEnd(ds, suffix, mega, n);
    } else {
      LinksAreByLast(front, suffix, mega, n);
      LinkedEarlier(ds, suffix, mega, n, Links(front, suffix, mega)[n]);
    }
  }

  /** The closed form keeps the promise for every name. */
  lemma ClosedFormKeepsPromise(e: Entries, ds: seq<string>, suffix: string, mega: Target, gone: seq<string>, n: string)
    ensures Promised(e, e + Links(ds, suffix, mega) - Names(gone), ds, suffix, mega, gone, n)
  {
    WrittenMeansReached(ds, suffix, n);
    if n in Written(ds, suffix) {
      LinksAreByLast(ds, suffix, mega, n);
    }
  }
}
