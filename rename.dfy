/**
 * The output-name rewrite of the converter: `name.replace(/\.[^/.]+$/, ".webp")`.
 *
 * The pattern is a dot followed by one or more characters that are neither `/`
 * nor `.`, anchored at the end of the name. Because the suffix may not contain a
 * dot, the only dot a match can start at is the last one, so the rewrite is
 * defined here through the index of the last dot instead of a pattern matcher;
 * the lemmas below show it agrees with the pattern's meaning.
 */
module Rename {

  const WebpExtension: string := ".webp"

  /** Index of the last occurrence of `c` in `s`, or -1 when there is none. */
  function LastIndexOf(s: string, c: char): (r: int)
    ensures -1 <= r < |s|
    ensures r >= 0 ==> s[r] == c
    ensures forall j :: r < j < |s| ==> s[j] != c
  {
    if |s| == 0 then -1
    else if s[|s| - 1] == c then |s| - 1
    else LastIndexOf(s[..|s| - 1], c)
  }

  /** The pattern `\.[^/.]+$` matches `name` starting at position `p`. */
  ghost predicate MatchesAt(name: string, p: int)
  {
    0 <= p && p + 1 < |name| && name[p] == '.' &&
    forall j :: p < j < |name| ==> name[j] != '/' && name[j] != '.'
  }

  /** Some position of `name` starts a match of the pattern. */
  ghost predicate HasMatch(name: string)
  {
    exists p :: MatchesAt(name, p)
  }

  /** The name the converted file is given: the matched suffix becomes ".webp". */
  function WebpName(name: string): string
  {
    var d := LastIndexOf(name, '.');
    if 0 <= d && d + 1 < |name| && '/' !in name[d + 1..] then name[..d] + WebpExtension
    else name
  }

  /** A match can only start at the last dot, so there is at most one. */
  lemma MatchIsLastDot(name: string, p: int)
    requires MatchesAt(name, p)
    ensures p == LastIndexOf(name, '.')
  {
  }

  /** `c` is absent from the part of `s` after position `d` exactly when no index there holds it. */
  lemma AbsentAfter(s: string, d: int, c: char)
    requires 0 <= d < |s|
    ensures c !in s[d + 1..] <==> forall j :: d < j < |s| ==> s[j] != c
  {
    if c in s[d + 1..] {
      var k :| 0 <= k < |s[d + 1..]| && s[d + 1..][k] == c;
      assert s[d + 1 + k] == c;
    } else {
      forall j | d < j < |s|
        ensures s[j] != c
      {
        assert s[j] == s[d + 1..][j - d - 1];
      }
    }
  }

  /** The index of the last `c` is the position holding `c` with none after it. */
  lemma LastIndexOfIs(s: string, c: char, i: int)
    requires 0 <= i < |s| && s[i] == c
    requires forall j :: i < j < |s| ==> s[j] != c
    ensures LastIndexOf(s, c) == i
  {
  }

  /** When the pattern matches at `p`, everything from `p` on is replaced by ".webp". */
  lemma WebpNameAtMatch(name: string, p: int)
    requires MatchesAt(name, p)
    ensures WebpName(name) == name[..p] + WebpExtension
  {
    MatchIsLastDot(name, p);
    AbsentAfter(name, p, '/');
  }

  /** When the pattern matches nowhere, the name is returned unchanged. */
  lemma WebpNameNoMatch(name: string)
    requires !HasMatch(name)
    ensures WebpName(name) == name
  {
    var d := LastIndexOf(name, '.');
    if 0 <= d && d + 1 < |name| && '/' !in name[d + 1..] {
      AbsentAfter(name, d, '/');
      assert MatchesAt(name, d);
    }
  }

  /**
   * The rewrite does what the pattern replacement does: when the pattern matches
   * at `p`, everything from `p` on is replaced by ".webp"; when it matches
   * nowhere, the name is returned unchanged.
   */
  lemma WebpNameReplacesMatch(name: string)
    ensures forall p :: MatchesAt(name, p) ==> WebpName(name) == name[..p] + WebpExtension
    ensures !HasMatch(name) ==> WebpName(name) == name
  {
    forall p | MatchesAt(name, p)
      ensures WebpName(name) == name[..p] + WebpExtension
    {
      WebpNameAtMatch(name, p);
    }
    if !HasMatch(name) {
      WebpNameNoMatch(name);
    }
  }

  /** Both directions: the name changes exactly when it has a match not already spelled ".webp". */
  lemma WebpNameChangesIff(name: string)
    ensures WebpName(name) != name <==> HasMatch(name) && name[LastIndexOf(name, '.')..] != WebpExtension
  {
    WebpNameReplacesMatch(name);
    var d := LastIndexOf(name, '.');
    if HasMatch(name) {
      var p :| MatchesAt(name, p);
      MatchIsLastDot(name, p);
      assert name == name[..d] + name[d..];
    }
  }

  /** Everything before the last dot is kept, and a name without a dot is untouched. */
  lemma WebpNameKeepsStem(name: string)
    ensures var d := LastIndexOf(name, '.');
      d >= 0 ==> |WebpName(name)| >= d && WebpName(name)[..d] == name[..d]
    ensures '.' !in name ==> WebpName(name) == name
  {
    var d := LastIndexOf(name, '.');
    if '.' in name {
      var i :| 0 <= i < |name| && name[i] == '.';
      assert d >= 0;
    }
  }

  /** A renamed name ends in ".webp", and renaming it again changes nothing. */
  lemma WebpNameIdempotent(name: string)
    ensures HasMatch(name) ==> |WebpName(name)| >= 5 && WebpName(name)[|WebpName(name)| - 5..] == WebpExtension
    ensures WebpName(WebpName(name)) == WebpName(name)
  {
    var r := WebpName(name);
    WebpNameReplacesMatch(name);
    if HasMatch(name) {
      var p :| MatchesAt(name, p);
      assert r == name[..p] + WebpExtension;
      assert r[|r| - 5..] == WebpExtension;
      var q := |r| - 5;
      assert MatchesAt(r, q) by {
        forall j | q < j < |r|
          ensures r[j] != '/' && r[j] != '.'
        {
          assert r[j] == WebpExtension[j - q];
        }
      }
      WebpNameReplacesMatch(r);
      assert r[..q] == name[..p];
    }
  }

  /** A dot followed by an extension: the extension is replaced. */
  lemma WebpNameExampleSimple()
    ensures WebpName("a.jpg") == "a.webp"
  {
    LastIndexOfIs("a.jpg", '.', 1);
    assert "a.jpg"[..1] == "a";
  }

  /** Only the last extension of a double extension is replaced. */
  lemma WebpNameExampleDoubleExtension()
    ensures WebpName("a.tar.gz") == "a.tar.webp"
  {
    LastIndexOfIs("a.tar.gz", '.', 5);
    assert "a.tar.gz"[..5] == "a.tar";
  }

  /** A dot in a directory part is not an extension. */
  lemma WebpNameExampleDotInDirectory()
    ensures WebpName("x.d/file") == "x.d/file"
  {
    LastIndexOfIs("x.d/file", '.', 1);
    assert "x.d/file"[2..][1] == '/';
  }

  /** A trailing dot has an empty suffix and does not match. */
  lemma WebpNameExampleTrailingDot()
    ensures WebpName("name.") == "name."
  {
    LastIndexOfIs("name.", '.', 4);
  }

  /** A leading dot counts: the whole hidden-file name is the suffix. */
  lemma WebpNameExampleLeadingDot()
    ensures WebpName(".bashrc") == ".webp"
  {
    LastIndexOfIs(".bashrc", '.', 0);
  }
}
