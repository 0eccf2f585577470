/**
 * The string tests the core relies on: the e-mail shape test used to decide
 * how an identifier is looked up, whitespace stripping for the login
 * validators, the case-insensitive substring filter of user search and the
 * `split("/")[1]` of a content type.
 */
module Text {

  /** Index of the first occurrence of `c` in `s` at or after `from`, or |s| when there is none. */
  function Find(s: string, c: char, from: nat): (i: nat)
    requires from <= |s|
    ensures from <= i <= |s|
    ensures i < |s| ==> s[i] == c
    ensures forall k :: from <= k < i ==> s[k] != c
    decreases |s| - from
  {
    if from == |s| then from else if s[from] == c then from else Find(s, c, from + 1)
  }

  /** No '@' among the characters at positions lo .. hi - 1. */
  predicate AtFree(s: string, lo: nat, hi: nat)
    requires hi <= |s|
  {
    forall k :: lo <= k < hi ==> s[k] != '@'
  }

  /**
   * Reference reading of `re.match(r'[^@]+@[^@]+\.[^@]+', s)`. The match is
   * anchored at the start only, so it succeeds when SOME PREFIX of `s` is a
   * nonempty run without '@', an '@' (at i), a nonempty run without '@', a '.'
   * (at j), and a nonempty run without '@'; a one-character last run is enough.
   */
  ghost predicate MatchesEmailPattern(s: string)
  {
    exists i: nat, j: nat ::
      0 < i && i + 1 < j && j + 1 < |s| && s[i] == '@' && s[j] == '.' &&
      AtFree(s, 0, i) && AtFree(s, i + 1, j + 2)
  }

  /**
   * The identifier classification of auth.py and main.py, computed by scanning:
   * the text before the first '@' is nonempty, there is an '@', and the run
   * after it, up to the next '@', holds a '.' that is neither its first nor its
   * last character.
   */
  predicate IsEmail(s: string)
  {
    var at := Find(s, '@', 0);
    0 < at < |s| &&
    var next := Find(s, '@', at + 1);
    exists j :: at + 1 < j < next - 1 && s[j] == '.'
  }

  /** The scanning classifier decides exactly the regular expression's prefix match. */
  lemma EmailClassification(s: string)
    ensures IsEmail(s) <==> MatchesEmailPattern(s)
  {
    if IsEmail(s) {
      EmailMatches(s);
    }
    if MatchesEmailPattern(s) {
      MatchIsEmail(s);
    }
  }

  lemma EmailMatches(s: string)
    requires IsEmail(s)
    ensures MatchesEmailPattern(s)
  {
    var at := Find(s, '@', 0);
    var next := Find(s, '@', at + 1);
    var j :| at + 1 < j < next - 1 && s[j] == '.';
    assert AtFree(s, 0, at) && AtFree(s, at + 1, j + 2);
  }

  lemma MatchIsEmail(s: string)
    requires MatchesEmailPattern(s)
    ensures IsEmail(s)
  {
    var i: nat, j: nat :|
      0 < i && i + 1 < j && j + 1 < |s| && s[i] == '@' && s[j] == '.' &&
      AtFree(s, 0, i) && AtFree(s, i + 1, j + 2);
    var at := Find(s, '@', 0);
    assert at <= i;
    assert at == i;
    var next := Find(s, '@', at + 1);
    assert j + 1 < next;
  }

  /** The ASCII characters Python's `str.strip()` removes. */
  predicate IsSpace(c: char)
  {
    c == ' ' || '\t' <= c <= '\r' || '\U{1C}' <= c <= '\U{1F}'
  }

  predicate IsBlank(s: string)
  {
    forall k :: 0 <= k < |s| ==> IsSpace(s[k])
  }

  function StripLeft(s: string): (r: string)
    ensures r == [] || !IsSpace(r[0])
    ensures |r| <= |s| && r == s[|s| - |r|..]
  {
    if s != [] && IsSpace(s[0]) then StripLeft(s[1..]) else s
  }

  function StripRight(s: string): (r: string)
    ensures r == [] || !IsSpace(r[|r| - 1])
    ensures |r| <= |s| && r == s[..|r|]
  {
    if s != [] && IsSpace(s[|s| - 1]) then StripRight(s[..|s| - 1]) else s
  }

  /** Python's `s.strip()` restricted to ASCII whitespace. */
  function Strip(s: string): string
  {
    StripRight(StripLeft(s))
  }

  lemma {:induction false} StripLeftEmptyIffBlank(s: string)
    ensures StripLeft(s) == [] <==> IsBlank(s)
  {
    if s != [] {
      if IsSpace(s[0]) {
        var t := s[1..];
        StripLeftEmptyIffBlank(t);
        if IsBlank(t) {
          forall k | 0 <= k < |s| ensures IsSpace(s[k]) {
            if k > 0 { assert s[k] == t[k - 1]; }
          }
        }
        if IsBlank(s) {
          forall k | 0 <= k < |t| ensures IsSpace(t[k]) { assert t[k] == s[k + 1]; }
        }
      } else {
        assert !IsBlank(s);
      }
    }
  }

  lemma {:induction false} StripRightEmptyIffBlank(s: string)
    ensures StripRight(s) == [] <==> IsBlank(s)
  {
    if s != [] {
      var last := |s| - 1;
      if IsSpace(s[last]) {
        var p := s[..last];
        StripRightEmptyIffBlank(p);
        if IsBlank(p) {
          forall k | 0 <= k < |s| ensures IsSpace(s[k]) {
            if k < last { assert s[k] == p[k]; }
          }
        }
        if IsBlank(s) {
          forall k | 0 <= k < |p| ensures IsSpace(p[k]) { assert p[k] == s[k]; }
        }
      } else {
        assert !IsBlank(s);
      }
    }
  }

  /** `not v.strip()` holds exactly when every character of `v` is whitespace (the empty string included). */
  lemma StripEmptyIffBlank(s: string)
    ensures Strip(s) == [] <==> IsBlank(s)
  {
    StripLeftEmptyIffBlank(s);
    StripRightEmptyIffBlank(StripLeft(s));
  }

  function LowerChar(c: char): char
  {
    if 'A' <= c <= 'Z' then (c as int + 32) as char else c
  }

  function Lower(s: string): (r: string)
    ensures |r| == |s|
    ensures forall k :: 0 <= k < |s| ==> r[k] == LowerChar(s[k])
  {
    seq(|s|, k requires 0 <= k < |s| => LowerChar(s[k]))
  }

  /** The needle, lower-cased, occurs in the lower-cased hay at position i. */
  predicate OccursAt(hay: string, needle: string, i: nat)
  {
    i + |needle| <= |hay| && Lower(hay)[i .. i + |needle|] == Lower(needle)
  }

  /** `column.ilike("%" + needle + "%")`, read as an ASCII case-insensitive substring test. */
  predicate ContainsIgnoreCase(hay: string, needle: string)
  {
    exists i: nat :: i <= |hay| && OccursAt(hay, needle, i)
  }

  /** Any occurrence of the needle, whatever the case of its letters, is a match. */
  lemma SubstringMatchesIgnoringCase(pre: string, mid: string, post: string, needle: string)
    requires Lower(mid) == Lower(needle)
    ensures ContainsIgnoreCase(pre + mid + post, needle)
  {
    var hay := pre + mid + post;
    assert Lower(hay)[|pre| .. |pre| + |needle|] == Lower(mid) by {
      forall k | 0 <= k < |mid| ensures Lower(hay)[|pre| + k] == Lower(mid)[k] {
        assert hay[|pre| + k] == mid[k];
      }
    }
    assert OccursAt(hay, needle, |pre|);
  }

  /**
   * `s.split("/")[1]` for a string holding a '/': the text between the first
   * '/' and the next one, or the end of the string.
   */
  function SecondField(s: string): (r: string)
    requires '/' in s
    ensures '/' !in r
    ensures var slash := Find(s, '/', 0);
      slash < |s| && s[..slash] + "/" + r <= s && '/' !in s[..slash] &&
      (slash + 1 + |r| == |s| || s[slash + 1 + |r|] == '/')
  {
    var slash := Find(s, '/', 0);
    var next := Find(s, '/', slash + 1);
    s[slash + 1 .. next]
  }
}
