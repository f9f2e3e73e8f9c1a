/** The file names whose treatment under collision is easy to get wrong, each
    worked out against a directory that already holds the name, and the
    behaviour of repeated uploads of one name. */
module UploadExamples {
  import opened Upload

  /** With every smaller index taken, a free index is the least free one. */
  lemma ResolvesToIndex(name: string, existing: set<string>, k: nat)
    requires name in existing
    requires IsLeastFreeIndex(SplitName(name), existing, k)
    ensures ResolveFilename(name, existing) == Candidate(SplitName(name), k)
  {
    var p := SplitName(name);
    LeastFreeIndexUnique(p, existing, k, LeastFreeIndex(p, existing));
  }

  /** No '.': split yields the whole name, which pop() takes as the
      extension, so the base is empty. */
  lemma NoDotCollision(name: string)
    requires '.' !in name
    ensures ResolveFilename(name, {name}) == "-1." + name
  {
    ResolvesToIndex(name, {name}, 1);
  }

  /** A taken name with at least one '.': the suffix goes before the last '.'. */
  lemma DotCollision(base: string, ext: string)
    requires '.' !in ext
    ensures ResolveFilename(base + "." + ext, {base + "." + ext}) == base + "-1." + ext
  {
    var name := base + "." + ext;
    SplitNameAt(name, base, ext);
    ResolvesToIndex(name, {name}, 1);
  }

  lemma NoDotName(name: string)
    requires name == "README"
    ensures ResolveFilename(name, {name}) == "-1.README"
  {
    NoDotCollision(name);
    assert "-1." + name == "-1.README";
  }

  /** A leading '.' leaves an empty base. */
  lemma LeadingDotName(name: string)
    requires name == ".bashrc"
    ensures ResolveFilename(name, {name}) == "-1.bashrc"
  {
    var base, ext := "", "bashrc";
    assert name == base + "." + ext;
    DotCollision(base, ext);
    assert ResolveFilename(name, {name}) == base + "-1." + ext;
    assert base + "-1." + ext == "-1.bashrc";
  }

  /** A trailing '.' leaves an empty extension. */
  lemma TrailingDotName()
    ensures ResolveFilename("a.", {"a."}) == "a-1."
  {
    DotCollision("a", "");
  }

  /** Only the last '.' separates the extension. */
  lemma TwoDotName(name: string)
    requires name == "a.tar.gz"
    ensures ResolveFilename(name, {name}) == "a.tar-1.gz"
  {
    var base, ext := "a.tar", "gz";
    assert name == base + "." + ext;
    DotCollision(base, ext);
    assert ResolveFilename(name, {name}) == base + "-1." + ext;
    assert base + "-1." + ext == "a.tar-1.gz";
  }

  /** Three uploads of one name into a directory that has none of the three
      resulting names give the name itself, then suffix 1, then suffix 2. */
  lemma ThreeUploads(name: string, existing: set<string>)
    requires name !in existing
    requires Candidate(SplitName(name), 1) !in existing
    requires Candidate(SplitName(name), 2) !in existing
    ensures var d1 := DirectoryAfterUpload(existing, name);
            var d2 := DirectoryAfterUpload(d1, name);
            var d3 := DirectoryAfterUpload(d2, name);
            && ResolveFilename(name, existing) == name
            && ResolveFilename(name, d1) == Candidate(SplitName(name), 1)
            && ResolveFilename(name, d2) == Candidate(SplitName(name), 2)
            && d3 == existing + {name, Candidate(SplitName(name), 1), Candidate(SplitName(name), 2)}
  {
    var p := SplitName(name);
    var d1 := DirectoryAfterUpload(existing, name);
    assert d1 == existing + {name};
    assert Candidate(p, 1) != name by {
      if '.' in name {
        assert |Candidate(p, 1)| == |name| + 2;
      } else {
        assert |Candidate(p, 1)| == |name| + 3;
      }
    }
    ResolvesToIndex(name, d1, 1);
    var d2 := DirectoryAfterUpload(d1, name);
    assert d2 == existing + {name, Candidate(p, 1)};
    CandidateInjective(p, 1, 2);
    assert Candidate(p, 2) != name by {
      if '.' in name {
        assert |Candidate(p, 2)| == |name| + 2;
      } else {
        assert |Candidate(p, 2)| == |name| + 3;
      }
    }
    ResolvesToIndex(name, d2, 2);
  }
}
