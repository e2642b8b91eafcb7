/**
 Page-title sanitiser of Notion2QuizPdf (`__modify_title` in scripts/mymodule.py).

 A Notion page title becomes the stem of every file the pipeline writes, so it
 is rewritten in two passes, each a Python `re.sub`:
   1. each of the nine characters `\ / : * ? " < > |` is replaced by `_`;
   2. every run of two or more half-width spaces (U+0020) becomes one space,
      because a browser collapses such runs in HTML and the downloaded PDF's
      name would otherwise stop matching the title.
 Strings are `seq<char>`, one element per Unicode scalar value. A Python `str`
 may also hold lone surrogates (U+D800 to U+DFFF), which Dafny's `char`
 excludes; neither pass treats those characters specially.
 Only these nine characters are rewritten: control characters such as a tab
 pass through both passes unchanged, although Windows refuses them in file names.
 */
module TitleSanitiser {

  const Space: char := ' '
  const Underscore: char := '_'

  /** The nine characters of the class `[\\/:\*\?"<>\|]`. */
  predicate IsForbidden(c: char) {
    c == '\\' || c == '/' || c == ':' || c == '*' || c == '?'
    || c == '"' || c == '<' || c == '>' || c == '|'
  }

  /** None of the nine characters `\ / : * ? " < > |` occurs in `s`. */
  predicate NoForbidden(s: string) {
    forall i :: 0 <= i < |s| ==> !IsForbidden(s[i])
  }

  /** No two half-width spaces stand next to each other in `s`. */
  predicate NoDoubleSpace(s: string) {
    forall i :: 0 < i < |s| ==> !(s[i - 1] == Space && s[i] == Space)
  }

  /** `s` with every half-width space deleted: what collapsing must not touch. */
  function RemoveSpaces(s: string): (r: string)
    ensures |r| <= |s|
    ensures Space !in r
  {
    if s == [] then []
    else (if s[0] == Space then [] else [s[0]]) + RemoveSpaces(s[1..])
  }

  // ---------------------------------------------------------------------------
  // Pass 1: re.sub(r'[\\/:\*\?"<>\|]', '_', title)
  // ---------------------------------------------------------------------------

  /** Scans left to right and substitutes `_` for each forbidden character. */
  function ReplaceForbidden(s: string): (r: string)
    ensures |r| == |s|
    ensures NoForbidden(r)
    ensures forall i :: 0 <= i < |s| ==> (IsForbidden(s[i]) ==> r[i] == Underscore)
    ensures forall i :: 0 <= i < |s| ==> (!IsForbidden(s[i]) ==> r[i] == s[i])
  {
    if s == [] then []
    else [if IsForbidden(s[0]) then Underscore else s[0]] + ReplaceForbidden(s[1..])
  }

  /** A title without any of the nine characters passes through the first pass unchanged. */
  lemma ReplaceForbiddenKeepsClean(s: string)
    requires NoForbidden(s)
    ensures ReplaceForbidden(s) == s
  {
  }

  // ---------------------------------------------------------------------------
  // Pass 2: re.sub(r'  +', ' ', title)
  // ---------------------------------------------------------------------------

  /** Length of the run of spaces at the front of `s`: the greedy ` +` part. */
  function LeadingSpaces(s: string): (n: nat)
    ensures n <= |s|
    ensures forall i :: 0 <= i < n ==> s[i] == Space
    ensures n < |s| ==> s[n] != Space
  {
    if s != [] && s[0] == Space then 1 + LeadingSpaces(s[1..]) else 0
  }

  /**
   The regular-expression substitution as Python performs it: at each position
   try the pattern; on a match (two or more spaces, taken greedily) emit one
   space and resume after the match, otherwise copy one character and move on.
   */
  function CollapseSpaces(s: string): (r: string)
    ensures |r| <= |s|
    ensures s != [] ==> r != [] && r[0] == s[0]
    ensures NoDoubleSpace(r)
    ensures forall c :: c in r ==> c in s
    decreases |s|
  {
    if |s| >= 2 && s[0] == Space && s[1] == Space then
      var rest := s[LeadingSpaces(s)..];
      var r := [Space] + CollapseSpaces(rest);
      assert forall c :: c in rest ==> c in s;
      r
    else if s == [] then []
    else
      var r := [s[0]] + CollapseSpaces(s[1..]);
      assert forall c :: c in s[1..] ==> c in s;
      r
  }

  /**
   An independent, character-at-a-time reading of the same rewrite: a space is
   dropped exactly when the character kept just before it was a space.
   `afterSpace` says whether the previous input character was a space.
   */
  function SqueezeAfter(afterSpace: bool, s: string): string
    decreases |s|
  {
    if s == [] then []
    else if afterSpace && s[0] == Space then SqueezeAfter(true, s[1..])
    else [s[0]] + SqueezeAfter(s[0] == Space, s[1..])
  }

  function Squeeze(s: string): string {
    SqueezeAfter(false, s)
  }

  /** After a space, a leading run of spaces contributes nothing. */
  lemma {:induction false} SqueezeSkipsRun(s: string)
    ensures SqueezeAfter(true, s) == SqueezeAfter(true, s[LeadingSpaces(s)..])
    decreases |s|
  {
    if s != [] && s[0] == Space {
      SqueezeSkipsRun(s[1..]);
      assert s[1..][LeadingSpaces(s[1..])..] == s[LeadingSpaces(s)..];
    }
  }

  /** Before a non-space character, the scanner's state does not matter. */
  lemma SqueezeStateIrrelevant(s: string)
    requires s == [] || s[0] != Space
    ensures SqueezeAfter(true, s) == SqueezeAfter(false, s)
  {
  }

  /** The regex substitution and the streaming reference agree on every input. */
  lemma {:induction false} CollapseIsSqueeze(s: string)
    ensures CollapseSpaces(s) == Squeeze(s)
    decreases |s|
  {
    if |s| >= 2 && s[0] == Space && s[1] == Space {
      var n := LeadingSpaces(s);
      var rest := s[n..];
      CollapseIsSqueeze(rest);
      calc {
        Squeeze(s);
        [Space] + SqueezeAfter(true, s[1..]);
        { SqueezeSkipsRun(s[1..]);
          assert s[1..][LeadingSpaces(s[1..])..] == rest; }
        [Space] + SqueezeAfter(true, rest);
        { SqueezeStateIrrelevant(rest); }
        [Space] + Squeeze(rest);
      }
    } else if s != [] {
      CollapseIsSqueeze(s[1..]);
      if s[0] == Space {
        SqueezeStateIrrelevant(s[1..]);
      }
    }
  }

  /** Splitting the input splits the streaming output, carrying the state across. */
  lemma {:induction false} SqueezeAppend(afterSpace: bool, a: string, b: string)
    ensures SqueezeAfter(afterSpace, a + b)
            == SqueezeAfter(afterSpace, a)
               + SqueezeAfter(if a == [] then afterSpace else a[|a| - 1] == Space, b)
    decreases |a|
  {
    if a != [] {
      var ab := a + b;
      assert ab != [] && ab[0] == a[0] && ab[1..] == a[1..] + b;
      assert a[1..] != [] ==> a[1..][|a[1..]| - 1] == a[|a| - 1];
      var next := if afterSpace && a[0] == Space then true else a[0] == Space;
      SqueezeAppend(next, a[1..], b);
    } else {
      assert a + b == b;
    }
  }

  /**
   Collapsing works run by run: cutting the title anywhere except inside a run
   of spaces and collapsing the pieces gives the same result.
   */
  lemma {:induction false} CollapseAppend(a: string, b: string)
    requires !(a != [] && a[|a| - 1] == Space && b != [] && b[0] == Space)
    ensures CollapseSpaces(a + b) == CollapseSpaces(a) + CollapseSpaces(b)
  {
    CollapseIsSqueeze(a + b);
    CollapseIsSqueeze(a);
    CollapseIsSqueeze(b);
    SqueezeAppend(false, a, b);
    if a != [] && a[|a| - 1] == Space {
      SqueezeStateIrrelevant(b);
    }
  }

  /**
   A space with no space on either side survives, also at the very start or
   the very end of the title (`a` or `b` empty).
   */
  lemma {:induction false} LoneSpaceSurvives(a: string, b: string)
    requires a == [] || a[|a| - 1] != Space
    requires b == [] || b[0] != Space
    ensures CollapseSpaces(a + [Space] + b)
            == CollapseSpaces(a) + [Space] + CollapseSpaces(b)
  {
    CollapseAppend(a, [Space]);
    assert CollapseSpaces([Space]) == [Space];
    assert (a + [Space])[|a + [Space]| - 1] == Space;
    CollapseAppend(a + [Space], b);
  }

  /** Deleting spaces from a concatenation deletes them from each part. */
  lemma {:induction false} RemoveSpacesAppend(a: string, b: string)
    ensures RemoveSpaces(a + b) == RemoveSpaces(a) + RemoveSpaces(b)
    decreases |a|
  {
    if a != [] {
      var ab := a + b;
      assert ab != [] && ab[0] == a[0] && ab[1..] == a[1..] + b;
      RemoveSpacesAppend(a[1..], b);
    } else {
      assert a + b == b;
    }
  }

  /** A run of spaces holds nothing else. */
  lemma {:induction false} RemoveSpacesOfRun(s: string, n: nat)
    requires n <= |s|
    requires forall i :: 0 <= i < n ==> s[i] == Space
    ensures RemoveSpaces(s[..n]) == []
    decreases n
  {
    if n > 0 {
      assert s[..n][1..] == s[1..][..n - 1];
      RemoveSpacesOfRun(s[1..], n - 1);
    }
  }

  /**
   Collapsing only ever removes half-width spaces: every other character
   (tabs, the full-width space U+3000, letters) survives, in order.
   */
  lemma {:induction false} CollapseKeepsNonSpaces(s: string)
    ensures RemoveSpaces(CollapseSpaces(s)) == RemoveSpaces(s)
    decreases |s|
  {
    if |s| >= 2 && s[0] == Space && s[1] == Space {
      var n := LeadingSpaces(s);
      CollapseKeepsNonSpaces(s[n..]);
      RemoveSpacesAppend([Space], CollapseSpaces(s[n..]));
      assert s == s[..n] + s[n..];
      RemoveSpacesAppend(s[..n], s[n..]);
      RemoveSpacesOfRun(s, n);
    } else if s != [] {
      CollapseKeepsNonSpaces(s[1..]);
      RemoveSpacesAppend([s[0]], CollapseSpaces(s[1..]));
    }
  }

  /** A title without double spaces is left unchanged by the second pass. */
  lemma {:induction false} CollapseKeepsSingleSpaced(s: string)
    requires NoDoubleSpace(s)
    ensures CollapseSpaces(s) == s
    decreases |s|
  {
    if s != [] {
      assert NoDoubleSpace(s[1..]) by {
        forall i | 0 < i < |s[1..]|
          ensures !(s[1..][i - 1] == Space && s[1..][i] == Space)
        {
          assert s[1..][i - 1] == s[i] && s[1..][i] == s[i + 1];
        }
      }
      CollapseKeepsSingleSpaced(s[1..]);
      if |s| >= 2 {
        assert !(s[0] == Space && s[1] == Space);
      }
    }
  }

  /** The second pass changes a title exactly when it holds a double space. */
  lemma {:induction false} CollapseFixedPoints(s: string)
    ensures CollapseSpaces(s) == s <==> NoDoubleSpace(s)
  {
    if NoDoubleSpace(s) {
      CollapseKeepsSingleSpaced(s);
    }
  }

  /** Collapsing cannot bring back one of the nine characters. */
  lemma {:induction false} CollapseKeepsNoForbidden(s: string)
    requires NoForbidden(s)
    ensures NoForbidden(CollapseSpaces(s))
  {
    var r := CollapseSpaces(s);
    forall i | 0 <= i < |r| ensures !IsForbidden(r[i]) {
      assert r[i] in s;
      var j :| 0 <= j < |s| && s[j] == r[i];
    }
  }

  // ---------------------------------------------------------------------------
  // The sanitiser: both passes in order
  // ---------------------------------------------------------------------------

  /** `__modify_title`: the nine characters to `_`, then space runs to one space. */
  function ModifyTitle(title: string): (r: string)
    ensures NoForbidden(r)
    ensures NoDoubleSpace(r)
    ensures |r| <= |title|
    ensures title != [] ==> r != []
  {
    var step1 := ReplaceForbidden(title);
    CollapseKeepsNoForbidden(step1);
    CollapseSpaces(step1)
  }

  /** Step 1 output and final output agree once half-width spaces are deleted. */
  lemma {:induction false} ModifyTitleKeepsNonSpaces(title: string)
    ensures RemoveSpaces(ModifyTitle(title)) == RemoveSpaces(ReplaceForbidden(title))
  {
    CollapseKeepsNonSpaces(ReplaceForbidden(title));
  }

  /** Sanitising a sanitised title changes nothing. */
  lemma {:induction false} ModifyTitleIdempotent(title: string)
    ensures ModifyTitle(ModifyTitle(title)) == ModifyTitle(title)
  {
    var m := ModifyTitle(title);
    ReplaceForbiddenKeepsClean(m);
    CollapseKeepsSingleSpaced(m);
  }

  /** The titles the sanitiser leaves alone are exactly the clean ones. */
  lemma {:induction false} ModifyTitleFixedPoints(title: string)
    ensures ModifyTitle(title) == title <==> NoForbidden(title) && NoDoubleSpace(title)
  {
    if NoForbidden(title) && NoDoubleSpace(title) {
      ReplaceForbiddenKeepsClean(title);
      CollapseKeepsSingleSpaced(title);
    }
  }

  /** Replacing forbidden characters never creates or destroys a space. */
  lemma {:induction false} SqueezeCommutesWithReplace(afterSpace: bool, s: string)
    ensures SqueezeAfter(afterSpace, ReplaceForbidden(s))
            == ReplaceForbidden(SqueezeAfter(afterSpace, s))
    decreases |s|
  {
    if s != [] {
      var r := ReplaceForbidden(s);
      assert r[1..] == ReplaceForbidden(s[1..]);
      assert r[0] == Space <==> s[0] == Space;
      SqueezeCommutesWithReplace(s[0] == Space, s[1..]);
      if !(afterSpace && s[0] == Space) {
        var tail := SqueezeAfter(s[0] == Space, s[1..]);
        assert ([s[0]] + tail)[1..] == tail;
      }
    }
  }

  /** The two passes may run in either order. */
  lemma {:induction false} PassesCommute(title: string)
    ensures ModifyTitle(title) == ReplaceForbidden(CollapseSpaces(title))
  {
    CollapseIsSqueeze(ReplaceForbidden(title));
    CollapseIsSqueeze(title);
    SqueezeCommutesWithReplace(false, title);
  }

  /**
   The rewrite is many-to-one: two different page titles can end up with the
   same file stem (here `a:b` and `a/b`, or `a  b` and `a b`).
   */
  lemma ModifyTitleNotInjective()
    ensures exists t1, t2 :: t1 != t2 && ModifyTitle(t1) == ModifyTitle(t2)
  {
    var t1, t2 := "a:b", "a/b";
    assert t1[1] != t2[1];
    assert ReplaceForbidden(t1) == "a_b" == ReplaceForbidden(t2);
    assert NoDoubleSpace("a_b");
    CollapseKeepsSingleSpaced("a_b");
    assert ModifyTitle(t1) == ModifyTitle(t2);
  }
}
