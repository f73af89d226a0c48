/** The pieces of Python's `ntpath` and `str` that the copy filter uses:
    `os.path.basename` (equal to `os.path.split(name)[1]`), `os.path.splitext`,
    `str.endswith` and `str.startswith`. */
module Paths {

  /** `sep` and `altsep` of Windows paths. */
  const Separators: set<char> := {'\\', '/'}

  /** `extsep`. */
  const Dot: set<char> := {'.'}

  /** The index of the last character of `p` before position `n` that is in
      `cs`, or -1 as `str.rfind` gives. */
  function LastIndexBefore(p: string, cs: set<char>, n: nat): (k: int)
    requires n <= |p|
    ensures -1 <= k < n
    ensures 0 <= k ==> p[k] in cs
    ensures forall i :: k < i < n ==> p[i] !in cs
  {
    if n == 0 then -1
    else if p[n - 1] in cs then n - 1
    else LastIndexBefore(p, cs, n - 1)
  }

  /** `str.rfind` over a set of characters. */
  function LastIndexIn(p: string, cs: set<char>): int {
    LastIndexBefore(p, cs, |p|)
  }

  /** `os.path.basename`: the last path component, after the last separator. */
  function Basename(p: string): (r: string)
    ensures |r| <= |p| && r == p[|p| - |r|..]
  {
    p[LastIndexIn(p, Separators) + 1..]
  }

  /** `Basename` is the longest suffix of the path without a separator. */
  lemma BasenameIsLastComponent(p: string)
    ensures |Basename(p)| <= |p| && Basename(p) == p[|p| - |Basename(p)|..]
    ensures forall i :: 0 <= i < |Basename(p)| ==> Basename(p)[i] !in Separators
    ensures |Basename(p)| < |p| ==> p[|p| - |Basename(p)| - 1] in Separators
  {
  }

  predicate HasNonDot(s: string) {
    exists i :: 0 <= i < |s| && s[i] != '.'
  }

  /** `os.path.splitext` (genericpath._splitext with the Windows separators):
      the extension starts at the last dot of the last component, unless every
      character of the component before that dot is itself a dot. */
  function SplitExt(p: string): (r: (string, string))
    ensures r.0 + r.1 == p
    ensures r.1 == [] || r.1[0] == '.'
  {
    var sepIndex := LastIndexIn(p, Separators);
    var dotIndex := LastIndexIn(p, Dot);
    if dotIndex > sepIndex && HasNonDot(p[sepIndex + 1..dotIndex]) then
      (p[..dotIndex], p[dotIndex..])
    else
      (p, [])
  }

  /** The two parts put back together give the path; the extension is empty
      or one dot followed by characters that are neither dots nor separators. */
  lemma SplitExtParts(p: string)
    ensures SplitExt(p).0 + SplitExt(p).1 == p
    ensures SplitExt(p).1 == [] || SplitExt(p).1[0] == '.'
    ensures forall i :: 0 < i < |SplitExt(p).1| ==> SplitExt(p).1[i] !in Dot && SplitExt(p).1[i] !in Separators
  {
  }

  /** A component has an extension when some dot in it follows a non-dot character. */
  predicate HasInnerDot(c: string) {
    exists i, j :: 0 <= j < i < |c| && c[j] != '.' && c[i] == '.'
  }

  /** `SplitExt` finds an extension exactly when the last component of the path
      has a dot after a non-dot character, so `.JPG` or `..JPG` have none. */
  lemma SplitExtHasExtension(p: string)
    ensures SplitExt(p).1 != [] <==> HasInnerDot(Basename(p))
  {
    if SplitExt(p).1 != [] {
      ExtensionGivesInnerDot(p);
    }
    if HasInnerDot(Basename(p)) {
      InnerDotGivesExtension(p);
    }
  }

  lemma ExtensionGivesInnerDot(p: string)
    requires SplitExt(p).1 != []
    ensures HasInnerDot(Basename(p))
  {
    var s := LastIndexIn(p, Separators);
    var d := LastIndexIn(p, Dot);
    var c := p[s + 1..];
    var between := p[s + 1..d];
    var m :| 0 <= m < |between| && between[m] != '.';
    assert c[m] == between[m];
    assert c[d - s - 1] == p[d];
    assert Basename(p) == c;
  }

  lemma InnerDotGivesExtension(p: string)
    requires HasInnerDot(Basename(p))
    ensures SplitExt(p).1 != []
  {
    var s := LastIndexIn(p, Separators);
    var d := LastIndexIn(p, Dot);
    var c := p[s + 1..];
    assert Basename(p) == c;
    var i, j :| 0 <= j < i < |c| && c[j] != '.' && c[i] == '.';
    assert p[s + 1 + i] == c[i];
    assert d >= s + 1 + i;
    var between := p[s + 1..d];
    assert between[j] == c[j];
    assert HasNonDot(between);
  }

  /** `str.endswith`. */
  predicate EndsWith(s: string, suffix: string) {
    |suffix| <= |s| && s[|s| - |suffix|..] == suffix
  }

  /** `str.startswith`. */
  predicate StartsWith(s: string, prefix: string) {
    prefix <= s
  }

  /** A plain file name `root.ext` splits at its one dot whenever the root has
      a character other than a dot. */
  lemma SplitExtOfFileName(root: string, ext: string)
    requires HasNonDot(root)
    requires forall i :: 0 <= i < |root| ==> root[i] !in Separators
    requires forall i :: 0 <= i < |ext| ==> ext[i] !in Separators && ext[i] !in Dot
    ensures SplitExt(root + "." + ext) == (root, "." + ext)
  {
    var p := root + "." + ext;
    assert forall i :: 0 <= i < |p| ==> p[i] !in Separators by {
      forall i | 0 <= i < |p| ensures p[i] !in Separators {
        if i < |root| { assert p[i] == root[i]; }
        else if i > |root| { assert p[i] == ext[i - |root| - 1]; }
      }
    }
    assert forall i :: |root| < i < |p| ==> p[i] !in Dot by {
      forall i | |root| < i < |p| ensures p[i] !in Dot {
        assert p[i] == ext[i - |root| - 1];
      }
    }
    assert p[|root|] in Dot;
    assert LastIndexIn(p, Dot) == |root|;
    assert LastIndexIn(p, Separators) == -1;
    assert p[0..|root|] == root;
    assert p[..|root|] == root && p[|root|..] == "." + ext;
  }

  /** A component made of leading dots and then text without a dot, such as
      ".JPG", has no extension. */
  lemma SplitExtLeadingDots(dots: string, text: string)
    requires |dots| > 0 && forall i :: 0 <= i < |dots| ==> dots[i] == '.'
    requires forall i :: 0 <= i < |text| ==> text[i] !in Separators && text[i] !in Dot
    ensures SplitExt(dots + text) == (dots + text, "")
  {
    var p := dots + text;
    assert forall i :: 0 <= i < |p| ==> p[i] !in Separators by {
      forall i | 0 <= i < |p| ensures p[i] !in Separators {
        if i >= |dots| { assert p[i] == text[i - |dots|]; }
      }
    }
    assert forall i :: |dots| <= i < |p| ==> p[i] !in Dot by {
      forall i | |dots| <= i < |p| ensures p[i] !in Dot {
        assert p[i] == text[i - |dots|];
      }
    }
    assert p[|dots| - 1] in Dot;
    assert LastIndexIn(p, Dot) == |dots| - 1;
    assert LastIndexIn(p, Separators) == -1;
    assert !HasNonDot(p[0..|dots| - 1]);
  }

  /** `os.path.join(directory, name)` with a separator, then `os.path.basename`,
      gives the name back when the name has no separator. */
  lemma BasenameOfJoin(directory: string, name: string)
    requires forall i :: 0 <= i < |name| ==> name[i] !in Separators
    ensures Basename(directory + "\\" + name) == name
  {
    var p := directory + "\\" + name;
    assert forall i :: |directory| < i < |p| ==> p[i] !in Separators by {
      forall i | |directory| < i < |p| ensures p[i] !in Separators {
        assert p[i] == name[i - |directory| - 1];
      }
    }
    assert p[|directory|] in Separators;
    assert LastIndexIn(p, Separators) == |directory|;
    assert p[|directory| + 1..] == name;
  }
}
