/** String handling the explore query relies on: Python's `str.strip()`, the
    lower-casing behind a case-insensitive match, and SQL's `LIKE` pattern
    language (PostgreSQL flavour: `%` matches any run of characters, `_`
    matches one character, a backslash makes the next character literal). */
module Text {

  /** Python's `str.isspace()` for one character: the ASCII controls TAB to
      CR, the separators 0x1C to 0x1F, SPACE, and the Unicode whitespace
      code points. No visible ASCII character is whitespace; the usual
      blanks (space, tab, line feed, carriage return) are. */
  predicate IsSpace(c: char): (r: bool)
    ensures '!' <= c <= '~' ==> !r
    ensures c == ' ' || c == '\t' || c == '\n' || c == '\r' ==> r
  {
    var n := c as int;
    n == 0x20 || 0x09 <= n <= 0x0D || 0x1C <= n <= 0x1F || n == 0x85 || n == 0xA0
    || n == 0x1680 || 0x2000 <= n <= 0x200A || n == 0x2028 || n == 0x2029
    || n == 0x202F || n == 0x205F || n == 0x3000
  }

  /** How many whitespace characters `s` starts with. */
  function LeadingSpaces(s: string): (n: nat)
    ensures n <= |s|
    ensures forall k :: 0 <= k < n ==> IsSpace(s[k])
    ensures n < |s| ==> !IsSpace(s[n])
  {
    if s == [] || !IsSpace(s[0]) then 0 else 1 + LeadingSpaces(s[1..])
  }

  /** How many whitespace characters `s` ends with. */
  function TrailingSpaces(s: string): (n: nat)
    ensures n <= |s|
    ensures forall k :: |s| - n <= k < |s| ==> IsSpace(s[k])
    ensures n < |s| ==> !IsSpace(s[|s| - n - 1])
  {
    if s == [] || !IsSpace(s[|s| - 1]) then 0 else 1 + TrailingSpaces(s[..|s| - 1])
  }

  /** Python's `s.strip()`: `s` without its leading and trailing whitespace. */
  function Strip(s: string): (r: string)
    ensures r == [] || (!IsSpace(r[0]) && !IsSpace(r[|r| - 1]))
    ensures exists i, j :: 0 <= i <= j <= |s| && r == s[i..j]
                           && (forall k :: 0 <= k < i ==> IsSpace(s[k]))
                           && (forall k :: j <= k < |s| ==> IsSpace(s[k]))
  {
    var i := LeadingSpaces(s);
    var t := s[i..];
    var j := i + |t| - TrailingSpaces(t);
    assert s[i..j] == t[..|t| - TrailingSpaces(t)];
    s[i..j]
  }

  /** Stripping leaves nothing exactly when the text is all whitespace. */
  lemma StripEmpty(s: string)
    ensures Strip(s) == [] <==> forall k :: 0 <= k < |s| ==> IsSpace(s[k])
  {
    var r := Strip(s);
    var i, j :| 0 <= i <= j <= |s| && r == s[i..j]
                && (forall k :: 0 <= k < i ==> IsSpace(s[k]))
                && (forall k :: j <= k < |s| ==> IsSpace(s[k]));
    if r != [] {
      assert s[i] == r[0];
    }
  }

  /** ASCII lower-casing of one character. */
  function LowerChar(c: char): char {
    if 'A' <= c <= 'Z' then (c as int - 'A' as int + 'a' as int) as char else c
  }

  /** ASCII lower-casing, character by character. */
  function Lower(s: string): (r: string)
    ensures |r| == |s|
  {
    seq(|s|, k requires 0 <= k < |s| => LowerChar(s[k]))
  }

  /** `s LIKE p` in PostgreSQL: the whole of `s` matches the pattern `p`.
      A pattern without wildcards or escapes matches only itself. PostgreSQL
      rejects a pattern ending in a lone backslash with an error; here that
      backslash matches itself. The explore pattern always ends in `%`, so
      it never has that form. */
  predicate Like(s: string, p: string): (r: bool)
    decreases |s| + |p|
    ensures NoWildcards(p) ==> (r <==> s == p)
  {
    if p == [] then s == []
    else if p[0] == '%' then Like(s, p[1..]) || (s != [] && Like(s[1..], p))
    else if p[0] == '_' then s != [] && Like(s[1..], p[1..])
    else if p[0] == '\\' && |p| >= 2 then s != [] && s[0] == p[1] && Like(s[1..], p[2..])
    else s != [] && s[0] == p[0] && Like(s[1..], p[1..])
  }

  /** `s ILIKE p`: `LIKE` after lower-casing both sides. A pattern without
      wildcards or escapes matches exactly the strings equal to it up to
      case. */
  predicate ILike(s: string, p: string): (r: bool)
    ensures NoWildcards(p) ==> (r <==> Lower(s) == Lower(p))
  {
    LowerPattern(p);
    Like(Lower(s), Lower(p))
  }

  /** `q` occurs in `t` as a contiguous piece. */
  predicate Contains(t: string, q: string) {
    exists i :: 0 <= i <= |t| && q <= t[i..]
  }

  /** `q` holds none of the characters `LIKE` gives a meaning to. */
  predicate NoWildcards(q: string) {
    forall k :: 0 <= k < |q| ==> q[k] != '%' && q[k] != '_' && q[k] != '\\'
  }

  /** A lone `%` matches every string. */
  lemma {:induction false} LikePercent(s: string)
    ensures Like(s, "%")
  {
    if s != [] {
      LikePercent(s[1..]);
    }
  }

  /** A literal followed by `%` matches exactly the strings it begins. */
  lemma {:induction false} LikePrefix(s: string, q: string)
    requires NoWildcards(q)
    ensures Like(s, q + "%") <==> q <= s
  {
    if q == [] {
      assert q + "%" == "%";
      LikePercent(s);
    } else {
      assert (q + "%")[1..] == q[1..] + "%";
      assert NoWildcards(q[1..]);
      if s != [] {
        LikePrefix(s[1..], q[1..]);
      }
    }
  }

  /** A leading `%` lets the rest of the pattern match any suffix. */
  lemma {:induction false} LikeSuffix(s: string, r: string)
    ensures Like(s, "%" + r) <==> exists i :: 0 <= i <= |s| && Like(s[i..], r)
  {
    var p := "%" + r;
    assert p[1..] == r;
    assert s[0..] == s;
    if s != [] {
      LikeSuffix(s[1..], r);
      if Like(s[1..], p) {
        var i :| 0 <= i <= |s[1..]| && Like(s[1..][i..], r);
        assert s[1..][i..] == s[i + 1..];
      }
      if i :| 0 < i <= |s| && Like(s[i..], r) {
        assert s[1..][i - 1..] == s[i..];
      }
    }
  }

  /** For a search text without wildcards, the pattern `%q%` matches
      exactly the strings that contain `q`. */
  lemma LikeContains(s: string, q: string)
    requires NoWildcards(q)
    ensures Like(s, "%" + q + "%") <==> Contains(s, q)
  {
    assert "%" + q + "%" == "%" + (q + "%");
    LikeSuffix(s, q + "%");
    forall i | 0 <= i <= |s|
      ensures Like(s[i..], q + "%") <==> q <= s[i..]
    {
      LikePrefix(s[i..], q);
    }
  }

  /** Lower-casing never produces a wildcard, and leaves `%` in place. */
  lemma LowerPattern(q: string)
    ensures Lower("%" + q + "%") == "%" + Lower(q) + "%"
    ensures NoWildcards(q) ==> NoWildcards(Lower(q))
  {
  }

  /** For a search text without wildcards, `title ILIKE '%q%'` holds exactly
      when the lower-cased title contains the lower-cased search text. */
  lemma ILikeContains(title: string, q: string)
    requires NoWildcards(q)
    ensures ILike(title, "%" + q + "%") <==> Contains(Lower(title), Lower(q))
  {
    LowerPattern(q);
    LikeContains(Lower(title), Lower(q));
  }

  /** A search text holding `_` is a pattern, not a substring: `%_%`
      matches every non-empty title, although no title need contain `_`. */
  lemma UnderscoreIsWildcard(title: string)
    requires title != []
    ensures ILike(title, "%_%")
  {
    var t := Lower(title);
    assert Lower("%_%") == "%_%";
    assert "%_%" == "%" + "_%";
    LikeSuffix(t, "_%");
    LikePercent(t[1..]);
    assert t[0..] == t;
  }
}
