/** `slug(name)` (js/main.js) turns a player name into the path segment of a
    player link; `renderPlayer` looks players up again with its own, simpler
    normalisation, modelled here as `MatchKey`. ASCII only. */
module Slugs {
  import opened Strings

  /** The characters `[a-z0-9-]` a slug keeps. */
  predicate IsSlugChar(c: char) {
    'a' <= c <= 'z' || '0' <= c <= '9' || c == '-'
  }

  predicate IsAlnum(c: char) {
    'a' <= c <= 'z' || 'A' <= c <= 'Z' || '0' <= c <= '9'
  }

  /** `replace(/\s+/g, '-')`: each maximal run of white space becomes one dash;
      every other character is copied. */
  function Dashes(s: string): (r: string)
    ensures |r| <= |s|
    ensures NoSpace(r)
    decreases |s|
  {
    if |s| == 0 then []
    else if IsSpace(s[0]) then "-" + Dashes(TrimStart(s[1..]))
    else [s[0]] + Dashes(s[1..])
  }

  /** Every character of the result is a dash or a non-space of the input. */
  lemma {:induction false} DashesChars(s: string, i: nat)
    requires i < |Dashes(s)|
    ensures Dashes(s)[i] == '-' || Dashes(s)[i] in s
    decreases |s|
  {
    if IsSpace(s[0]) {
      if i > 0 {
        var t := TrimStart(s[1..]);
        DashesChars(t, i - 1);
        assert t == s[|s| - |t|..];
      }
    } else if i > 0 {
      DashesChars(s[1..], i - 1);
    }
  }

  /** `replace(/[^a-z0-9-]/g, '')`: only slug characters survive, in order. */
  function Keep(s: string): (r: string)
    ensures |r| <= |s|
    ensures forall i :: 0 <= i < |r| ==> IsSlugChar(r[i])
  {
    if |s| == 0 then []
    else if IsSlugChar(s[0]) then [s[0]] + Keep(s[1..])
    else Keep(s[1..])
  }

  /** `slug(name)`: trim, lower-case, collapse white space, keep `[a-z0-9-]`. */
  function Slug(name: string): (r: string)
    ensures forall i :: 0 <= i < |r| ==> IsSlugChar(r[i])
  {
    Keep(Dashes(Lower(Trim(name))))
  }

  lemma {:induction false} KeepAllSlugChars(s: string)
    requires forall i :: 0 <= i < |s| ==> IsSlugChar(s[i])
    ensures Keep(s) == s
  {
    if |s| > 0 {
      KeepAllSlugChars(s[1..]);
      assert s == [s[0]] + s[1..];
    }
  }

  /** `Keep` works character by character, so it distributes over `+`. */
  lemma {:induction false} KeepAppend(a: string, b: string)
    ensures Keep(a + b) == Keep(a) + Keep(b)
  {
    if |a| > 0 {
      KeepAppend(a[1..], b);
      assert (a + b)[1..] == a[1..] + b;
    } else {
      assert a + b == b;
    }
  }

  /** A character is in `Keep(s)` exactly when it is a slug character of `s`. */
  lemma {:induction false} KeepMembers(s: string)
    ensures forall c :: c in Keep(s) <==> c in s && IsSlugChar(c)
  {
    if |s| > 0 {
      KeepMembers(s[1..]);
      assert s == [s[0]] + s[1..];
    }
  }

  lemma {:induction false} DashesNoSpace(s: string)
    requires NoSpace(s)
    ensures Dashes(s) == s
  {
    if |s| > 0 {
      DashesNoSpace(s[1..]);
      assert s == [s[0]] + s[1..];
    }
  }

  lemma LowerOfSlugChars(s: string)
    requires forall i :: 0 <= i < |s| ==> IsSlugChar(s[i])
    ensures Lower(s) == s
  {
  }

  /** A name without white space is only lower-cased and filtered. */
  lemma SlugOfSpaceFree(name: string)
    requires NoSpace(name)
    ensures Slug(name) == Keep(Lower(name))
  {
    TrimIdentity(name);
    DashesNoSpace(Lower(name));
  }

  /** A slug is its own slug. */
  lemma SlugIdempotent(name: string)
    ensures Slug(Slug(name)) == Slug(name)
  {
    var t := Slug(name);
    assert NoSpace(t);
    TrimIdentity(t);
    LowerOfSlugChars(t);
    DashesNoSpace(t);
    KeepAllSlugChars(t);
  }

  lemma {:induction false} TrimStartOfBlank(w: string, b: string)
    requires IsBlank(w)
    requires |b| == 0 || !IsSpace(b[0])
    ensures TrimStart(w + b) == b
  {
    if |w| > 0 {
      assert (w + b)[1..] == w[1..] + b;
      TrimStartOfBlank(w[1..], b);
    } else {
      assert w + b == b;
    }
  }

  lemma {:induction false} TrimStartAppend(x: string, c: string)
    requires !IsBlank(x)
    ensures TrimStart(x + c) == TrimStart(x) + c
  {
    if IsSpace(x[0]) {
      assert (x + c)[1..] == x[1..] + c;
      TrimStartAppend(x[1..], c);
    }
  }

  /** A run of white space followed by a non-space becomes exactly one dash. */
  lemma DashesRun(w: string, b: string)
    requires |w| > 0 && IsBlank(w)
    requires |b| == 0 || !IsSpace(b[0])
    ensures Dashes(w + b) == "-" + Dashes(b)
  {
    assert (w + b)[0] == w[0];
    assert (w + b)[1..] == w[1..] + b;
    TrimStartOfBlank(w[1..], b);
  }

  /** Cutting after a non-space never splits a run, so the replacement works
      piece by piece. */
  lemma {:induction false} DashesAppend(a: string, c: string)
    requires |a| == 0 || !IsSpace(a[|a| - 1])
    ensures Dashes(a + c) == Dashes(a) + Dashes(c)
    decreases |a|
  {
    if |a| == 0 {
      assert a + c == c;
    } else if IsSpace(a[0]) {
      var t := TrimStart(a[1..]);
      LastAfterTrimStart(a);
      SpaceLedAppend(a, c);
      DashesAppend(t, c);
      Regroup("-", Dashes(t), Dashes(c));
    } else {
      var a' := a[1..];
      DashesCons(a, c);
      DashesAppend(a', c);
      Regroup([a[0]], Dashes(a'), Dashes(c));
    }
  }

  lemma Regroup(x: string, y: string, z: string)
    ensures x + (y + z) == (x + y) + z
  {
  }

  /** A leading non-space is copied, before and after appending `c`. */
  lemma DashesCons(a: string, c: string)
    requires |a| > 0 && !IsSpace(a[0])
    ensures Dashes(a) == [a[0]] + Dashes(a[1..])
    ensures Dashes(a + c) == [a[0]] + Dashes(a[1..] + c)
  {
    assert (a + c)[0] == a[0];
    assert (a + c)[1..] == a[1..] + c;
  }

  lemma LastAfterTrimStart(a: string)
    requires |a| > 0 && IsSpace(a[0]) && !IsSpace(a[|a| - 1])
    ensures !IsBlank(a[1..])
    ensures |TrimStart(a[1..])| > 0 && !IsSpace(TrimStart(a[1..])[|TrimStart(a[1..])| - 1])
  {
    var s := a[1..];
    assert s[|s| - 1] == a[|a| - 1];
    LastSurvivesTrimStart(s);
  }

  /** A string ending in a non-space keeps that last character through `TrimStart`. */
  lemma {:induction false} LastSurvivesTrimStart(s: string)
    requires |s| > 0 && !IsSpace(s[|s| - 1])
    ensures |TrimStart(s)| > 0 && TrimStart(s)[|TrimStart(s)| - 1] == s[|s| - 1]
  {
    if IsSpace(s[0]) {
      var s' := s[1..];
      assert s'[|s'| - 1] == s[|s| - 1];
      LastSurvivesTrimStart(s');
    }
  }

  lemma SpaceLedAppend(a: string, c: string)
    requires |a| > 0 && IsSpace(a[0]) && !IsBlank(a[1..])
    ensures Dashes(a + c) == "-" + Dashes(TrimStart(a[1..]) + c)
    ensures Dashes(a) == "-" + Dashes(TrimStart(a[1..]))
  {
    assert (a + c)[1..] == a[1..] + c;
    TrimStartAppend(a[1..], c);
  }

  lemma {:induction false} TrimEndOfBlank(x: string, post: string)
    requires IsBlank(post)
    requires |x| == 0 || !IsSpace(x[|x| - 1])
    ensures TrimEnd(x + post) == x
    decreases |post|
  {
    if |post| > 0 {
      assert (x + post)[..|x + post| - 1] == x + post[..|post| - 1];
      TrimEndOfBlank(x, post[..|post| - 1]);
    } else {
      assert x + post == x;
    }
  }

  lemma TrimIgnoresOuterSpace(pre: string, name: string, post: string)
    requires IsBlank(pre) && IsBlank(post)
    ensures Trim(pre + name + post) == Trim(name)
  {
    if IsBlank(name) {
      TrimEmptyIffBlank(name);
      assert IsBlank(pre + name + post);
      TrimEmptyIffBlank(pre + name + post);
    } else {
      TrimStartOuter(pre, name, post);
      TrimEndAfterTrimStart(name, post);
    }
  }

  lemma TrimStartOuter(pre: string, name: string, post: string)
    requires IsBlank(pre) && !IsBlank(name)
    ensures TrimStart(pre + name + post) == TrimStart(name) + post
  {
    assert pre + name + post == pre + (name + post);
    TrimStartPrefixBlank(pre, name + post);
    TrimStartAppend(name, post);
  }

  lemma TrimEndAfterTrimStart(name: string, post: string)
    requires IsBlank(post)
    ensures TrimEnd(TrimStart(name) + post) == TrimEnd(TrimStart(name))
  {
    TrimEndAppendBlank(TrimStart(name), post);
  }

  /** Appending white space does not change what `trimEnd` keeps. */
  lemma TrimEndAppendBlank(t: string, post: string)
    requires IsBlank(post)
    ensures TrimEnd(t + post) == TrimEnd(t)
  {
    var u := TrimEnd(t);
    var tail := t[|u|..];
    TrimEndTailBlank(t);
    BlankAppend(tail, post);
    assert t == u + tail;
    assert t + post == u + (tail + post);
    TrimEndOfBlank(u, tail + post);
  }

  lemma TrimEndTailBlank(t: string)
    ensures IsBlank(t[|TrimEnd(t)|..])
  {
    var tail := t[|TrimEnd(t)|..];
    forall k | 0 <= k < |tail| ensures IsSpace(tail[k]) {
      assert tail[k] == t[|TrimEnd(t)| + k];
    }
  }

  lemma BlankAppend(x: string, y: string)
    requires IsBlank(x) && IsBlank(y)
    ensures IsBlank(x + y)
  {
    forall k | 0 <= k < |x + y| ensures IsSpace((x + y)[k]) {
      if k < |x| {
        assert (x + y)[k] == x[k];
      } else {
        assert (x + y)[k] == y[k - |x|];
      }
    }
  }

  /** White space around a name does not reach its slug. */
  lemma SlugIgnoresOuterSpace(pre: string, name: string, post: string)
    requires IsBlank(pre) && IsBlank(post)
    ensures Slug(pre + name + post) == Slug(name)
  {
    TrimIgnoresOuterSpace(pre, name, post);
  }

  lemma {:induction false} TrimStartPrefixBlank(pre: string, x: string)
    requires IsBlank(pre)
    ensures TrimStart(pre + x) == TrimStart(x)
  {
    if |pre| > 0 {
      assert (pre + x)[1..] == pre[1..] + x;
      TrimStartPrefixBlank(pre[1..], x);
    } else {
      assert pre + x == x;
    }
  }

  /** The normalisation `renderPlayer` compares with the link:
      `name.toLowerCase().replace(/\s+/g, '-')`, without trimming and without
      dropping punctuation. */
  function MatchKey(name: string): (r: string)
    ensures |r| <= |name|
  {
    Dashes(Lower(name))
  }

  /** A name without white space followed by one space gets a trailing dash. */
  lemma MatchKeyOfTrailingSpace(name: string)
    requires |name| > 0 && NoSpace(name)
    ensures MatchKey(name + " ") == Lower(name) + "-"
  {
    var l := Lower(name);
    assert Lower(name + " ") == l + " ";
    assert NoSpace(l);
    DashesAppend(l, " ");
    DashesNoSpace(l);
    DashesOfOneSpace();
  }

  lemma DashesOfOneSpace()
    ensures Dashes(" ") == "-"
  {
    DashesRun(" ", "");
    assert " " + "" == " ";
    assert "-" + Dashes("") == "-";
  }

  lemma DashesOfSlugChars(l: string)
    requires forall k :: 0 <= k < |l| ==> IsSlugChar(l[k]) || IsSpace(l[k])
    ensures forall i :: 0 <= i < |Dashes(l)| ==> IsSlugChar(Dashes(l)[i])
  {
    var d := Dashes(l);
    forall i | 0 <= i < |d| ensures IsSlugChar(d[i]) {
      DashesChars(l, i);
      if d[i] != '-' {
        var k :| 0 <= k < |l| && l[k] == d[i];
      }
    }
  }

  /** For a name of letters, digits and inner white space the two
      normalisations agree. */
  lemma MatchKeyAgreesWithSlug(name: string)
    requires forall i :: 0 <= i < |name| ==> IsAlnum(name[i]) || IsSpace(name[i])
    requires |name| == 0 || (!IsSpace(name[0]) && !IsSpace(name[|name| - 1]))
    ensures MatchKey(name) == Slug(name)
  {
    TrimIdentity(name);
    var l := Lower(name);
    assert forall k :: 0 <= k < |l| ==> IsSlugChar(l[k]) || IsSpace(l[k]);
    DashesOfSlugChars(l);
    KeepAllSlugChars(Dashes(l));
  }
}
