/**
 Collision-avoiding output names. Given the path the converted file should
 get, the converter keeps that path when no file exists there and otherwise
 tries `root_1.ext`, `root_2.ext`, ... (with `root, ext` the splitext of the
 path) until it finds a name no file has.
 */
module Naming {
  import opened Paths

  predicate IsDigit(c: char)
  {
    '0' <= c <= '9'
  }

  predicate AllDigits(s: string)
  {
    forall i :: 0 <= i < |s| ==> IsDigit(s[i])
  }

  function DigitChar(d: nat): char
    requires d < 10
  {
    ('0' as int + d) as char
  }

  function DigitValue(c: char): nat
    requires IsDigit(c)
  {
    c as int - '0' as int
  }

  /** The decimal text Python's f-string gives a natural number. */
  function Decimal(n: nat): (s: string)
    ensures |s| >= 1 && AllDigits(s)
  {
    if n < 10 then [DigitChar(n)] else Decimal(n / 10) + [DigitChar(n % 10)]
  }

  /** Reading decimal digits back as a number, the inverse of Decimal. */
  function ParseDecimal(s: string): nat
    requires AllDigits(s)
  {
    if s == [] then 0 else ParseDecimal(s[..|s| - 1]) * 10 + DigitValue(s[|s| - 1])
  }

  lemma {:induction false} DecimalRoundTrip(n: nat)
    ensures ParseDecimal(Decimal(n)) == n
  {
    if n >= 10 {
      var s := Decimal(n);
      assert s[..|s| - 1] == Decimal(n / 10);
      DecimalRoundTrip(n / 10);
    }
  }

  /** The name probed after `n` collisions: `root + ext` itself first, then
      `f"{root}_{n}{ext}"`. */
  function Candidate(root: string, ext: string, n: nat): string
  {
    if n == 0 then root + ext else root + "_" + Decimal(n) + ext
  }

  /** Every probed name keeps the root in front and the extension at the end. */
  lemma CandidateAffixes(root: string, ext: string, n: nat)
    ensures var c := Candidate(root, ext, n);
            |c| >= |root| + |ext| && c[..|root|] == root && c[|c| - |ext|..] == ext
  {
    var c := Candidate(root, ext, n);
    if n != 0 {
      assert c == root + ("_" + Decimal(n) + ext);
      assert c == (root + "_" + Decimal(n)) + ext;
    }
  }

  /** Distinct counters give distinct names. */
  lemma CandidateInjective(root: string, ext: string, m: nat, n: nat)
    requires Candidate(root, ext, m) == Candidate(root, ext, n)
    ensures m == n
  {
    if m != 0 && n != 0 {
      var a := Candidate(root, ext, m);
      assert a[|root| + 1..|a| - |ext|] == Decimal(m);
      assert a[|root| + 1..|a| - |ext|] == Decimal(n);
      DecimalRoundTrip(m);
      DecimalRoundTrip(n);
    }
  }

  /** The first `n` probed names all exist already. */
  ghost predicate AllTaken(root: string, ext: string, existing: set<string>, n: nat)
  {
    forall k :: 0 <= k < n ==> Candidate(root, ext, k) in existing
  }

  ghost function CandidateSet(root: string, ext: string, n: nat): set<string>
  {
    if n == 0 then {} else CandidateSet(root, ext, n - 1) + {Candidate(root, ext, n - 1)}
  }

  lemma {:induction false} CandidateSetSize(root: string, ext: string, n: nat)
    ensures |CandidateSet(root, ext, n)| == n
    ensures forall m: nat :: Candidate(root, ext, m) in CandidateSet(root, ext, n) ==> m < n
  {
    if n != 0 {
      CandidateSetSize(root, ext, n - 1);
      forall m: nat | Candidate(root, ext, m) in CandidateSet(root, ext, n)
        ensures m < n
      {
        if Candidate(root, ext, m) == Candidate(root, ext, n - 1) {
          CandidateInjective(root, ext, m, n - 1);
        }
      }
    }
  }

  lemma {:induction false} CandidateSetTaken(root: string, ext: string, existing: set<string>, n: nat)
    requires AllTaken(root, ext, existing, n)
    ensures CandidateSet(root, ext, n) <= existing
  {
    if n != 0 {
      CandidateSetTaken(root, ext, existing, n - 1);
    }
  }

  /** Only as many names can be taken as there are existing files: this is
      why the probing loop stops on a finite file system. */
  lemma TakenBound(root: string, ext: string, existing: set<string>, n: nat)
    requires AllTaken(root, ext, existing, n)
    ensures n <= |existing|
  {
    var s := CandidateSet(root, ext, n);
    CandidateSetSize(root, ext, n);
    CandidateSetTaken(root, ext, existing, n);
    assert existing == s + (existing - s);
  }

  /** The first counter, from `n` on, whose name is free. */
  function FirstFreeFrom(root: string, ext: string, existing: set<string>, n: nat): (k: nat)
    requires AllTaken(root, ext, existing, n)
    ensures n <= k
    ensures Candidate(root, ext, k) !in existing && AllTaken(root, ext, existing, k)
    decreases |existing| - n
  {
    if Candidate(root, ext, n) !in existing then n
    else
      TakenBound(root, ext, existing, n + 1);
      FirstFreeFrom(root, ext, existing, n + 1)
  }

  /** The least counter whose name is free. */
  function FreeIndex(root: string, ext: string, existing: set<string>): nat
  {
    FirstFreeFrom(root, ext, existing, 0)
  }

  /** A free counter whose predecessors are all taken is the least one. */
  lemma FreeIndexUnique(root: string, ext: string, existing: set<string>, k: nat)
    requires AllTaken(root, ext, existing, k) && Candidate(root, ext, k) !in existing
    ensures FreeIndex(root, ext, existing) == k
  {
  }

  /** The name the converter saves under when it wanted `base`. */
  function FreeName(f: Flavour, existing: set<string>, base: string): string
  {
    var (root, ext) := SplitExt(f, base);
    Candidate(root, ext, FreeIndex(root, ext, existing))
  }

  /** The chosen name is free; it is `base` when `base` is free, and
      otherwise `root_k + ext` for the least k >= 1 whose name is free. */
  lemma FreeNameIsFirstFree(f: Flavour, existing: set<string>, base: string)
    ensures FreeName(f, existing, base) !in existing
    ensures base !in existing ==> FreeName(f, existing, base) == base
    ensures base in existing ==>
      var (root, ext) := SplitExt(f, base);
      exists k: nat ::
        && 1 <= k
        && FreeName(f, existing, base) == root + "_" + Decimal(k) + ext
        && forall j :: 1 <= j < k ==> root + "_" + Decimal(j) + ext in existing
  {
    var (root, ext) := SplitExt(f, base);
    SplitExtParts(f, base);
    var k := FreeIndex(root, ext, existing);
    if base !in existing {
      FreeIndexUnique(root, ext, existing, 0);
    } else {
      assert Candidate(root, ext, 0) in existing;
      assert 1 <= k;
      forall j | 1 <= j < k
        ensures root + "_" + Decimal(j) + ext in existing
      {
        assert Candidate(root, ext, j) in existing;
      }
    }
  }

  /** Saving under the chosen name and converting the same source again
      picks a different name, also not among the files that existed at
      first; when `base` and `root_1 + ext` were both free, the two names are
      exactly those. */
  lemma SecondRunTakesNextName(f: Flavour, existing: set<string>, base: string)
    ensures var first := FreeName(f, existing, base);
            var second := FreeName(f, existing + {first}, base);
            && second != first
            && second !in existing
            && (var (root, ext) := SplitExt(f, base);
                base !in existing && root + "_1" + ext !in existing ==>
                  first == base && second == root + "_1" + ext)
  {
    var (root, ext) := SplitExt(f, base);
    SplitExtParts(f, base);
    var first := FreeName(f, existing, base);
    var more := existing + {first};
    var second := FreeName(f, more, base);
    assert second !in more;
    if base !in existing && root + "_1" + ext !in existing {
      FreeIndexUnique(root, ext, existing, 0);
      assert Decimal(1) == "1";
      assert Candidate(root, ext, 1) == root + "_1" + ext;
      assert |Candidate(root, ext, 1)| != |base|;
      FreeIndexUnique(root, ext, more, 1);
    }
  }

  /** The probing loop of the converter: keep `base` if no file has that
      name, otherwise count up from 1 until `root_i + ext` is free. The file
      system is the set of existing paths, `os.path.isfile` is membership. */
  method PickOutputPath(f: Flavour, existing: set<string>, base: string) returns (path: string)
    ensures path !in existing
    ensures path == FreeName(f, existing, base)
  {
    var (root, ext) := SplitExt(f, base);
    SplitExtParts(f, base);
    path := base;
    var i := 1;
    while path in existing
      invariant 1 <= i && i - 1 <= |existing|
      invariant AllTaken(root, ext, existing, i - 1)
      invariant path == Candidate(root, ext, i - 1)
      decreases |existing| - (i - 1)
    {
      TakenBound(root, ext, existing, i);
      path := root + "_" + Decimal(i) + ext;
      i := i + 1;
    }
    FreeIndexUnique(root, ext, existing, i - 1);
  }
}
