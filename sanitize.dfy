/**
 * File names: the four-step sanitiser shared by the redaction service and
 * the file route, the POSIX basename, and the redacted artifact's path.
 */
module Sanitize {

  /** The characters the sanitiser keeps: `[a-zA-Z0-9._-]`. */
  predicate IsSafe(c: char)
  {
    ('a' <= c <= 'z') || ('A' <= c <= 'Z') || ('0' <= c <= '9') || c == '.' || c == '_' || c == '-'
  }

  /** The characters the third step strips from the front: `[._-]`. */
  predicate IsLeadingJunk(c: char) { c == '.' || c == '_' || c == '-' }

  predicate AllSafe(s: string) { forall i | 0 <= i < |s| :: IsSafe(s[i]) }

  predicate NoDoubleDot(s: string) { forall i | 0 <= i < |s| - 1 :: !(s[i] == '.' && s[i + 1] == '.') }

  /** The names the sanitiser produces, and the only ones it leaves unchanged. */
  predicate IsClean(s: string)
  {
    AllSafe(s) && NoDoubleDot(s) && (s != [] ==> !IsLeadingJunk(s[0])) && |s| <= MaxNameLength
  }

  const MaxNameLength := 100

  /** Step 1, `replace(/[^a-zA-Z0-9._-]/g, '_')`: every other character becomes `_`. */
  function ReplaceUnsafe(s: string): (r: string)
    ensures |r| == |s| && AllSafe(r)
    ensures forall i | 0 <= i < |s| :: r[i] == if IsSafe(s[i]) then s[i] else '_'
  {
    if s == [] then [] else [if IsSafe(s[0]) then s[0] else '_'] + ReplaceUnsafe(s[1..])
  }

  /** Step 2, `replace(/\.\./g, '_')`: left to right, each `..` pair becomes one `_`. */
  function CollapseDots(s: string): (r: string)
    ensures |r| <= |s|
    ensures AllSafe(s) ==> AllSafe(r)
    ensures r != [] && r[0] == '.' ==> s != [] && s[0] == '.'
  {
    if |s| >= 2 && s[0] == '.' && s[1] == '.' then "_" + CollapseDots(s[2..])
    else if s == [] then []
    else [s[0]] + CollapseDots(s[1..])
  }

  /** Step 3, `replace(/^[._-]+/, '')`: the leading run of `.`, `_` and `-` is dropped. */
  function TrimLeadingJunk(s: string): (r: string)
    ensures |r| <= |s| && r == s[|s| - |r|..]
    ensures r != [] ==> !IsLeadingJunk(r[0])
    ensures forall i | 0 <= i < |s| - |r| :: IsLeadingJunk(s[i])
  {
    if s != [] && IsLeadingJunk(s[0]) then TrimLeadingJunk(s[1..]) else s
  }

  /** Step 4, `substring(0, 100)`. */
  function Truncate(s: string, n: nat): (r: string)
    ensures |r| <= n && |r| <= |s| && r == s[..|r|]
    ensures |s| <= n ==> r == s
  {
    if |s| <= n then s else s[..n]
  }

  /**
   * sanitizeFilename: the four steps in order. The result uses only safe
   * characters, does not start with `.`, `_` or `-`, and fits the length limit.
   */
  function SanitizeFilename(name: string): (r: string)
    ensures AllSafe(r) && (r != [] ==> !IsLeadingJunk(r[0])) && |r| <= MaxNameLength
  {
    Truncate(TrimLeadingJunk(CollapseDots(ReplaceUnsafe(name))), MaxNameLength)
  }

  /** After step 2 no two dots are adjacent. */
  lemma {:induction false} CollapsedHasNoDoubleDot(s: string)
    ensures NoDoubleDot(CollapseDots(s))
  {
    if |s| >= 2 && s[0] == '.' && s[1] == '.' {
      CollapsedHasNoDoubleDot(s[2..]);
      var r := CollapseDots(s[2..]);
      assert forall i | 1 <= i < |r| + 1 :: ("_" + r)[i] == r[i - 1];
    } else if s != [] {
      CollapsedHasNoDoubleDot(s[1..]);
      var r := CollapseDots(s[1..]);
      assert forall i | 1 <= i < |r| + 1 :: ([s[0]] + r)[i] == r[i - 1];
    }
  }

  /** Step 2 changes nothing when there is no `..`. */
  lemma {:induction false} CollapseWithoutDoubleDot(s: string)
    requires NoDoubleDot(s)
    ensures CollapseDots(s) == s
  {
    if s != [] {
      assert NoDoubleDot(s[1..]) by {
        forall i | 0 <= i < |s[1..]| - 1 ensures !(s[1..][i] == '.' && s[1..][i + 1] == '.') {
          assert s[1..][i] == s[i + 1] && s[1..][i + 1] == s[i + 2];
        }
      }
      CollapseWithoutDoubleDot(s[1..]);
    }
  }

  /** Every sub-range of a string without `..` is without `..`. */
  lemma NoDoubleDotSlice(s: string, a: nat, b: nat)
    requires NoDoubleDot(s) && a <= b <= |s|
    ensures NoDoubleDot(s[a..b])
  {
    forall i | 0 <= i < |s[a..b]| - 1 ensures !(s[a..b][i] == '.' && s[a..b][i + 1] == '.') {
      assert s[a..b][i] == s[a + i] && s[a..b][i + 1] == s[a + i + 1];
    }
  }

  /**
   * The sanitised name uses only `[A-Za-z0-9._-]`, has no `..`, does not
   * start with `.`, `_` or `-`, and is at most 100 characters long.
   */
  lemma SanitizedIsClean(name: string)
    ensures IsClean(SanitizeFilename(name))
  {
    var collapsed := CollapseDots(ReplaceUnsafe(name));
    var trimmed := TrimLeadingJunk(collapsed);
    CollapsedHasNoDoubleDot(ReplaceUnsafe(name));
    NoDoubleDotSlice(collapsed, |collapsed| - |trimmed|, |collapsed|);
    NoDoubleDotSlice(trimmed, 0, |Truncate(trimmed, MaxNameLength)|);
  }

  /** A clean name passes through the sanitiser unchanged. */
  lemma CleanIsFixed(name: string)
    requires IsClean(name)
    ensures SanitizeFilename(name) == name
  {
    assert ReplaceUnsafe(name) == name;
    CollapseWithoutDoubleDot(name);
  }

  /** The sanitiser leaves a name unchanged exactly when the name is clean. */
  lemma SanitizeFixedIff(name: string)
    ensures SanitizeFilename(name) == name <==> IsClean(name)
  {
    if IsClean(name) {
      CleanIsFixed(name);
    } else {
      SanitizedIsClean(name);
    }
  }

  /** Sanitising twice is sanitising once. */
  lemma SanitizeIdempotent(name: string)
    ensures SanitizeFilename(SanitizeFilename(name)) == SanitizeFilename(name)
  {
    SanitizedIsClean(name);
    CleanIsFixed(SanitizeFilename(name));
  }

  /** Node's `path.basename` for POSIX paths: trailing `/`s dropped, then what follows the last `/`. */
  function Basename(path: string): (r: string)
    ensures '/' !in r
  {
    AfterLastSlash(StripTrailingSlashes(path))
  }

  function StripTrailingSlashes(path: string): (r: string)
    ensures |r| <= |path| && r == path[..|r|] && (r != [] ==> r[|r| - 1] != '/')
  {
    if path != [] && path[|path| - 1] == '/' then StripTrailingSlashes(path[..|path| - 1]) else path
  }

  function AfterLastSlash(path: string): (r: string)
    ensures '/' !in r && |r| <= |path| && r == path[|path| - |r|..]
    ensures |r| < |path| ==> path[|path| - |r| - 1] == '/'
  {
    if path == [] || path[|path| - 1] == '/' then []
    else AfterLastSlash(path[..|path| - 1]) + [path[|path| - 1]]
  }

  /** The basename of `dir/name` is `name`, for a non-empty name without `/`. */
  lemma BasenameOfJoin(dir: string, name: string)
    requires name != [] && '/' !in name
    ensures Basename(dir + "/" + name) == name
  {
    var p := dir + "/" + name;
    assert p[..|p|] == p;
    AfterLastSlashOfJoin(dir + "/", name);
  }

  lemma {:induction false} AfterLastSlashOfJoin(dir: string, name: string)
    requires dir != [] && dir[|dir| - 1] == '/' && '/' !in name
    ensures AfterLastSlash(dir + name) == name
  {
    if name != [] {
      var p := dir + name;
      assert p[..|p| - 1] == dir + name[..|name| - 1];
      AfterLastSlashOfJoin(dir, name[..|name| - 1]);
      assert name == name[..|name| - 1] + [name[|name| - 1]];
    } else {
      assert dir + name == dir;
    }
  }

  /** The directory every redacted artifact is written to, and its name prefix. */
  const RedactedPrefix := "uploads/redacted/redacted_"

  /** `path.join('uploads', 'redacted', 'redacted_' + sanitizeFilename(path.basename(originalPath)))`. */
  function RedactedPathFor(originalPath: string): (p: string)
    ensures |RedactedPrefix| <= |p| <= |RedactedPrefix| + MaxNameLength
    ensures p[..|RedactedPrefix|] == RedactedPrefix && AllSafe(p[|RedactedPrefix|..])
  {
    RedactedPrefix + SanitizeFilename(Basename(originalPath))
  }

  /**
   * The redacted path is the fixed prefix followed by a clean name: no `/`
   * and no `..` after the prefix, so the artifact stays in `uploads/redacted`.
   */
  lemma RedactedPathShape(originalPath: string)
    ensures var p := RedactedPathFor(originalPath);
      && |p| <= |RedactedPrefix| + MaxNameLength
      && p[..|RedactedPrefix|] == RedactedPrefix
      && IsClean(p[|RedactedPrefix|..]) && '/' !in p[|RedactedPrefix|..]
  {
    var name := SanitizeFilename(Basename(originalPath));
    SanitizedIsClean(Basename(originalPath));
    assert RedactedPathFor(originalPath)[|RedactedPrefix|..] == name;
  }
}
