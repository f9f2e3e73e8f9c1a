/** The destination-name decision of the upload handler (the multer
    `filename` callback). The storage directory is the finite set of names it
    already holds; the two existence probes of index.js, `fs.access` and
    `fs.existsSync`, are both membership in that set. */
module Upload {
  import opened Wrappers
  import opened Decimal
  import opened JsString

  /** The pieces a colliding name is cut into:
      `parts = name.split('.')`, `ext = parts.pop()`, `base = parts.join('.')`. */
  datatype NameParts = NameParts(base: string, ext: string)

  function SplitName(name: string): (p: NameParts)
    ensures '.' !in p.ext
    ensures '.' in name ==> p.base + "." + p.ext == name
    ensures '.' !in name ==> p.base == "" && p.ext == name
  {
    var parts := Split(name, '.');
    var init := parts[..|parts| - 1];
    var last := parts[|parts| - 1];
    if |init| == 0 then
      assert parts == [last];
      NameParts("", last)
    else
      assert parts == init + [last];
      JoinSnoc(init, last, '.');
      NameParts(Join(init, '.'), last)
  }

  /** An independent account of the split: the extension is the text after the
      last '.', the base the text before it; with no '.' at all the whole name
      is the extension and the base is empty. */
  function LastDotParts(name: string): NameParts {
    match LastIndexOf(name, '.')
    case None => NameParts("", name)
    case Some(i) => NameParts(name[..i], name[i + 1..])
  }

  lemma SplitNameIsLastDot(name: string)
    ensures SplitName(name) == LastDotParts(name)
  {
    var p := SplitName(name);
    if '.' in name {
      LastIndexOfSplitPoint(p.base, '.', p.ext);
      assert name == p.base + ['.'] + p.ext;
      assert name[..|p.base|] == p.base;
      assert name[|p.base| + 1..] == p.ext;
    }
  }

  /** Whatever comes before a '.' that is followed by no other '.' is the
      base, and what follows it the extension. */
  lemma SplitNameAt(name: string, base: string, ext: string)
    requires name == base + "." + ext
    requires '.' !in ext
    ensures SplitName(name) == NameParts(base, ext)
  {
    var p := SplitName(name);
    assert name == base + ['.'] + ext;
    assert name[|base|] == '.';
    LastIndexOfSplitPoint(base, '.', ext);
    LastIndexOfSplitPoint(p.base, '.', p.ext);
    assert |p.base| == |base|;
    assert p.base == name[..|base|] == base;
    assert p.ext == name[|base| + 1..] == ext;
  }

  /** `base + '-' + index + '.' + extension` */
  function Candidate(p: NameParts, k: nat): string {
    p.base + "-" + NatToString(k) + "." + p.ext
  }

  /** Distinct indices give distinct candidates. */
  lemma CandidateInjective(p: NameParts, j: nat, k: nat)
    ensures Candidate(p, j) == Candidate(p, k) ==> j == k
  {
    if Candidate(p, j) == Candidate(p, k) {
      var c := Candidate(p, j);
      var dj, dk := NatToString(j), NatToString(k);
      var lo := |p.base| + 1;
      assert |dj| == |dk|;
      assert c[lo..lo + |dj|] == dj;
      assert Candidate(p, k)[lo..lo + |dk|] == dk;
      NatToStringInjective(j, k);
    }
  }

  /** The candidates for indices 1..n. */
  ghost function CandidatesUpTo(p: NameParts, n: nat): (cs: set<string>)
    ensures forall k :: 1 <= k <= n ==> Candidate(p, k) in cs
    decreases n
  {
    if n == 0 then {} else CandidatesUpTo(p, n - 1) + {Candidate(p, n)}
  }

  lemma {:induction false} CandidatesUpToSize(p: NameParts, n: nat)
    ensures |CandidatesUpTo(p, n)| == n
    decreases n
  {
    if n > 0 {
      CandidatesUpToSize(p, n - 1);
      if Candidate(p, n) in CandidatesUpTo(p, n - 1) {
        CandidatesUpToMembers(p, n - 1, Candidate(p, n));
        var k :| 1 <= k <= n - 1 && Candidate(p, k) == Candidate(p, n);
        CandidateInjective(p, k, n);
        assert false;
      }
    }
  }

  lemma {:induction false} CandidatesUpToMembers(p: NameParts, n: nat, c: string)
    requires c in CandidatesUpTo(p, n)
    ensures exists k :: 1 <= k <= n && Candidate(p, k) == c
    decreases n
  {
    if c != Candidate(p, n) {
      CandidatesUpToMembers(p, n - 1, c);
    }
  }

  /** If the candidates 1..k are all taken, the directory holds at least k
      names: a run of taken candidates can never outgrow the directory. */
  lemma TakenRunBound(p: NameParts, existing: set<string>, k: nat)
    requires forall j :: 1 <= j <= k ==> Candidate(p, j) in existing
    ensures k <= |existing|
  {
    var cs := CandidatesUpTo(p, k);
    forall c | c in cs ensures c in existing {
      CandidatesUpToMembers(p, k, c);
    }
    CandidatesUpToSize(p, k);
    assert existing == cs + (existing - cs);
  }

  /** `k` is the first index whose candidate is free. */
  ghost predicate IsLeastFreeIndex(p: NameParts, existing: set<string>, k: nat) {
    && k >= 1
    && Candidate(p, k) !in existing
    && forall j :: 1 <= j < k ==> Candidate(p, j) in existing
  }

  lemma LeastFreeIndexUnique(p: NameParts, existing: set<string>, j: nat, k: nat)
    requires IsLeastFreeIndex(p, existing, j)
    requires IsLeastFreeIndex(p, existing, k)
    ensures j == k
  {
  }

  /** The handler's search written as a recursion from index `k`, when
      every smaller index is known to be taken. */
  function FirstFreeFrom(p: NameParts, existing: set<string>, k: nat): (r: nat)
    requires 1 <= k <= |existing| + 1
    requires forall j :: 1 <= j < k ==> Candidate(p, j) in existing
    ensures IsLeastFreeIndex(p, existing, r)
    ensures k <= r <= |existing| + 1
    decreases |existing| + 1 - k
  {
    if Candidate(p, k) !in existing then k
    else
      TakenRunBound(p, existing, k);
      FirstFreeFrom(p, existing, k + 1)
  }

  /** The smallest index whose candidate is not in the directory. */
  function LeastFreeIndex(p: NameParts, existing: set<string>): (k: nat)
    ensures IsLeastFreeIndex(p, existing, k)
    ensures k <= |existing| + 1
  {
    FirstFreeFrom(p, existing, 1)
  }

  /** The name the upload is stored under. */
  function ResolveFilename(name: string, existing: set<string>): (r: string)
    ensures name !in existing ==> r == name
    ensures name in existing ==> r !in existing
    ensures name in existing ==>
      r == Candidate(SplitName(name), LeastFreeIndex(SplitName(name), existing))
  {
    if name !in existing then name
    else
      var p := SplitName(name);
      Candidate(p, LeastFreeIndex(p, existing))
  }

  /** The callback as index.js runs it: one probe for the name itself, then a
      loop over k = 1, 2, ... probing each candidate. `index` is the suffix used
      (0 when the name was free). */
  method ResolveFilenameLoop(name: string, existing: set<string>)
    returns (r: string, index: nat)
    ensures r == ResolveFilename(name, existing)
    ensures r !in existing
    ensures name !in existing ==> r == name && index == 0
    ensures name in existing ==>
      && IsLeastFreeIndex(SplitName(name), existing, index)
      && index <= |existing| + 1
      && r == Candidate(SplitName(name), index)
  {
    if name !in existing {
      return name, 0;
    }
    var p := SplitName(name);
    index := 1;
    r := Candidate(p, index);
    while r in existing
      invariant 1 <= index <= |existing| + 1
      invariant r == Candidate(p, index)
      invariant forall j :: 1 <= j < index ==> Candidate(p, j) in existing
      decreases |existing| + 1 - index
    {
      TakenRunBound(p, existing, index);
      index := index + 1;
      r := Candidate(p, index);
    }
    LeastFreeIndexUnique(p, existing, index, LeastFreeIndex(p, existing));
  }

  /** A taken name that contains a '.' gets the suffix between its base and its
      extension, and keeps both. */
  lemma CollisionShape(name: string, existing: set<string>)
    requires name in existing
    ensures '.' in name ==>
      exists k: nat :: k >= 1 && ResolveFilename(name, existing) ==
        name[..|SplitName(name).base|] + "-" + NatToString(k) + "." +
        name[|SplitName(name).base| + 1..]
    ensures '.' !in name ==>
      exists k: nat :: k >= 1 && ResolveFilename(name, existing) ==
        "-" + NatToString(k) + "." + name
  {
    var k := LeastFreeIndex(SplitName(name), existing);
    if '.' in name {
      DottedCandidate(name, k);
    } else {
      assert Candidate(SplitName(name), k) == "-" + NatToString(k) + "." + name;
    }
  }

  /** For a name with a '.', a candidate is the name with the suffix put in
      front of its last '.'. */
  lemma DottedCandidate(name: string, k: nat)
    requires '.' in name
    ensures Candidate(SplitName(name), k) ==
      name[..|SplitName(name).base|] + "-" + NatToString(k) + "." +
      name[|SplitName(name).base| + 1..]
  {
    var p := SplitName(name);
    assert name == p.base + "." + p.ext;
    assert name[..|p.base|] == p.base;
    assert name[|p.base| + 1..] == p.ext;
  }

  /** The directory after the upload has been written under its resolved
      name: every earlier entry is still there and exactly one name is new. */
  function DirectoryAfterUpload(existing: set<string>, name: string): (after: set<string>)
    ensures existing < after
    ensures |after| == |existing| + 1
    ensures after - existing == {ResolveFilename(name, existing)}
  {
    existing + {ResolveFilename(name, existing)}
  }
}
