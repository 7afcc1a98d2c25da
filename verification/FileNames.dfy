/** Splitting a file name at its last extension, as os.path.splitext does for a name without a
    directory part, and the chain of shorter names that repeated splitting gives. */
module FileNames {

  /** The index of the last dot, or -1. */
  function LastDot(s: string): (d: int)
    ensures -1 <= d < |s|
    ensures d >= 0 ==> s[d] == '.'
    ensures forall i | d < i < |s| :: s[i] != '.'
  {
    if s == "" then -1
    else if s[|s| - 1] == '.' then |s| - 1
    else LastDot(s[..|s| - 1])
  }

  predicate AllDots(s: string) {
    forall i | 0 <= i < |s| :: s[i] == '.'
  }

  /** Stem and extension.  Leading dots do not start an extension. */
  function Splitext(s: string): (r: (string, string))
    ensures r.0 + r.1 == s
    ensures r.1 != "" ==> |r.0| < |s| && r.1[0] == '.' && !AllDots(r.0)
    ensures forall i | 0 < i < |r.1| :: r.1[i] != '.'
    ensures r.1 == "" ==> forall d | 0 <= d < |s| && s[d] == '.' :: AllDots(s[..d])
  {
    var d := LastDot(s);
    if d < 0 || AllDots(s[..d]) then (s, "") else (s[..d], s[d..])
  }

  /** Extensions are dropped until one is `.suffix` or none is left: the names passed on the way. */
  function Chain(name: string, suffix: string): seq<string>
    decreases |name|
  {
    var (stem, ext) := Splitext(name);
    if ext == "" || ext == "." + suffix then [] else [stem] + Chain(stem, suffix)
  }

  /** Does dropping extensions arrive at `.suffix`? */
  predicate Versioned(name: string, suffix: string)
    decreases |name|
  {
    var (stem, ext) := Splitext(name);
    ext == "." + suffix || (ext != "" && Versioned(stem, suffix))
  }

  /** Every name of a chain is a shorter beginning of the name it comes from. */
  lemma {:induction false} ChainShorter(name: string, suffix: string, n: string)
    requires n in Chain(name, suffix)
    ensures |n| < |name| && n <= name
    decreases |name|
  {
    var (stem, ext) := Splitext(name);
    if n != stem {
      ChainShorter(stem, suffix, n);
    }
  }

  /** The chain of a chained name is part of the chain. */
  lemma {:induction false} ChainTransitive(name: string, suffix: string, m: string, n: string)
    requires m in Chain(name, suffix) && n in Chain(m, suffix)
    ensures n in Chain(name, suffix)
    decreases |name|
  {
    var (stem, ext) := Splitext(name);
    if m != stem {
      ChainTransitive(stem, suffix, m, n);
    }
  }

  /** The shortest name of a versioned name's chain, or the name itself, carries the suffix. */
  lemma {:induction false} ChainEndsInSuffix(name: string, suffix: string)
    requires Versioned(name, suffix)
    ensures var all := [name] + Chain(name, suffix);
      Splitext(all[|all| - 1]).1 == "." + suffix
    decreases |name|
  {
    var (stem, ext) := Splitext(name);
    if ext != "." + suffix {
      ChainEndsInSuffix(stem, suffix);
      assert [name] + Chain(name, suffix) == [name] + ([stem] + Chain(stem, suffix));
    }
  }

  // ---------------------------------------------------------------- chains, told from the dots

  /** A dot with something other than dots before it: where an extension can start. */
  predicate CutAt(name: string, k: nat) {
    k < |name| && name[k] == '.' && !AllDots(name[..k])
  }

  /** The extension between the dot at `k` and the next dot, or the end, is `.suffix`. */
  ghost predicate SuffixAt(name: string, suffix: string, k: nat) {
    exists end: nat :: ExtensionIs(name, suffix, k, end)
  }

  predicate ExtensionIs(name: string, suffix: string, k: nat, end: nat) {
    && k < end <= |name|
    && (end == |name| || name[end] == '.')
    && (forall i | k < i < end :: name[i] != '.')
    && name[k..end] == "." + suffix
  }

  /** `k` cuts `name`, and none of the extensions from there on is `.suffix`. */
  ghost predicate IsVersionCut(name: string, suffix: string, k: nat) {
    && CutAt(name, k)
    && forall j | k <= j < |name| && name[j] == '.' :: !SuffixAt(name, suffix, j)
  }

  /** What splitting says about the dots of a name: the last cut, if there is one. */
  lemma SplitAtLastCut(name: string)
    ensures var (stem, ext) := Splitext(name);
      if ext == "" then forall k: nat :: !CutAt(name, k)
      else
        && CutAt(name, |stem|)
        && stem == name[..|stem|] && ext == name[|stem|..]
        && forall i | |stem| < i < |name| :: name[i] != '.'
  {
    var (stem, ext) := Splitext(name);
    if ext != "" {
      assert name == stem + ext;
      assert name[|stem|] == ext[0];
      forall i | |stem| < i < |name| ensures name[i] != '.' {
        assert name[i] == ext[i - |stem|];
      }
    }
  }

  lemma LastExtension(name: string, suffix: string, d: nat)
    requires d < |name| && name[d] == '.' && forall i | d < i < |name| :: name[i] != '.'
    ensures SuffixAt(name, suffix, d) <==> name[d..] == "." + suffix
  {
    if name[d..] == "." + suffix {
      assert ExtensionIs(name, suffix, d, |name|);
    }
    if SuffixAt(name, suffix, d) {
      var end: nat :| ExtensionIs(name, suffix, d, end);
      assert end == |name|;
    }
  }

  lemma EarlierExtension(name: string, suffix: string, d: nat, j: nat)
    requires j < d < |name| && name[d] == '.'
    ensures SuffixAt(name, suffix, j) <==> SuffixAt(name[..d], suffix, j)
  {
    var stem := name[..d];
    if SuffixAt(name, suffix, j) {
      var end: nat :| ExtensionIs(name, suffix, j, end);
      assert end <= d;
      assert stem[j..end] == name[j..end];
      assert ExtensionIs(stem, suffix, j, end);
    }
    if SuffixAt(stem, suffix, j) {
      var end: nat :| ExtensionIs(stem, suffix, j, end);
      assert stem[j..end] == name[j..end];
      assert ExtensionIs(name, suffix, j, end);
    }
  }

  lemma EarlierCut(name: string, d: nat, k: nat)
    requires k < d < |name|
    ensures CutAt(name, k) <==> CutAt(name[..d], k)
  {
    assert name[..d][..k] == name[..k];
  }

  lemma EarlierVersionCut(name: string, suffix: string, d: nat, k: nat)
    requires k < d < |name| && name[d] == '.' && (forall i | d < i < |name| :: name[i] != '.')
    requires !SuffixAt(name, suffix, d)
    ensures IsVersionCut(name, suffix, k) <==> IsVersionCut(name[..d], suffix, k)
  {
    EarlierCut(name, d, k);
    forall j | k <= j < d ensures SuffixAt(name, suffix, j) <==> SuffixAt(name[..d], suffix, j) {
      EarlierExtension(name, suffix, d, j);
    }
  }

  lemma NoVersionCut(name: string, suffix: string, d: nat, k: nat)
    requires d < |name| && name[d] == '.' && (forall i | d < i < |name| :: name[i] != '.')
    requires SuffixAt(name, suffix, d)
    ensures !IsVersionCut(name, suffix, k)
  {
  }

  /** The chain of a name is its beginnings up to the dots after its last `.suffix` extension: nothing
      more and nothing less. */
  lemma {:induction false} ChainExact(name: string, suffix: string, n: string)
    ensures n in Chain(name, suffix) <==> n <= name && IsVersionCut(name, suffix, |n|)
    decreases |name|
  {
    var (stem, ext) := Splitext(name);
    SplitAtLastCut(name);
    if ext != "" {
      var d := |stem|;
      LastExtension(name, suffix, d);
      if ext == "." + suffix {
        NoVersionCut(name, suffix, d, |n|);
      } else {
        ChainExact(stem, suffix, n);
        if |n| < d {
          EarlierVersionCut(name, suffix, d, |n|);
        } else if |n| == d {
          assert n <= name <==> n == stem;
        }
      }
    }
  }

  /** A name is versioned if and only if one of its extensions is `.suffix`. */
  lemma {:induction false} VersionedExact(name: string, suffix: string)
    ensures Versioned(name, suffix) <==> exists k: nat :: CutAt(name, k) && SuffixAt(name, suffix, k)
    decreases |name|
  {
    var (stem, ext) := Splitext(name);
    SplitAtLastCut(name);
    if ext != "" {
      var d := |stem|;
      LastExtension(name, suffix, d);
      VersionedExact(stem, suffix);
      forall k: nat | k < d
        ensures CutAt(name, k) && SuffixAt(name, suffix, k) <==> CutAt(stem, k) && SuffixAt(stem, suffix, k)
      {
        EarlierCut(name, d, k);
        EarlierExtension(name, suffix, d, k);
      }
      forall k: nat | CutAt(stem, k) ensures k < d {
      }
    }
  }
}
