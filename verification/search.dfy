/**
 * The one regular-expression shape the core relies on for its token grammar and
 * its log reader: an opening literal, a non-empty run of characters other than a
 * closing character, then that closing character. It covers `\[ACTION:([^\]]+)\]`
 * and `\[ANSWER:([^\]]+)\]` (close `]`) and `Question: (.+?)\n`, `Created: (.+?)\n`
 * and `Answer: (.+?)\n` (close newline: `.` excludes only the newline, and the lazy
 * group stops at the first one). `re.search` returns the group of the leftmost match.
 */
module Search {
  import opened Options
  import opened Text

  /** The group of a match that starts at `p`, if one does. */
  function DelimitedAt(s: string, open: string, close: char, p: nat): (r: Option<string>)
    requires p <= |s|
    ensures r.Some? ==>
      && |r.value| > 0 && close !in r.value
      && OccursAt(s, open + r.value + [close], p)
  {
    if !OccursAt(s, open, p) then
      None
    else
      var c := p + |open|;
      var e := RunEnd(s, c, close);
      if c < e < |s| then
        assert s[p..e + 1] == open + s[c..e] + [close];
        Some(s[c..e])
      else
        None
  }

  /** Any text of the delimited shape at `p` is recognised there, group and all. */
  lemma DelimitedAtComplete(s: string, open: string, close: char, p: nat, g: string)
    requires p <= |s|
    requires |g| > 0 && close !in g
    requires OccursAt(s, open + g + [close], p)
    ensures DelimitedAt(s, open, close, p) == Some(g)
  {
    var c := p + |open|;
    assert s[p..p + |open|] == (open + g + [close])[..|open|];
    assert OccursAt(s, open, p);
    assert forall k :: c <= k < c + |g| ==> s[k] == g[k - c];
    assert s[c + |g|] == close;
    assert RunEnd(s, c, close) == c + |g|;
    assert s[c..c + |g|] == g;
  }

  /** `re.search`: the group of the leftmost match at or after `i`. */
  function FirstDelimited(s: string, open: string, close: char, i: nat): Option<string>
    requires i <= |s|
    decreases |s| - i
  {
    if i == |s| then DelimitedAt(s, open, close, i)
    else if DelimitedAt(s, open, close, i).Some? then DelimitedAt(s, open, close, i)
    else FirstDelimited(s, open, close, i + 1)
  }

  /** The search fails exactly when no position matches, and otherwise returns the leftmost match. */
  lemma FirstDelimitedIsLeftmost(s: string, open: string, close: char, i: nat)
    requires i <= |s|
    ensures FirstDelimited(s, open, close, i).None? <==>
      forall p :: i <= p <= |s| ==> DelimitedAt(s, open, close, p).None?
    ensures FirstDelimited(s, open, close, i).Some? ==>
      exists p :: i <= p <= |s| && DelimitedAt(s, open, close, p) == FirstDelimited(s, open, close, i)
                  && forall q :: i <= q < p ==> DelimitedAt(s, open, close, q).None?
  {
    FirstDelimitedNone(s, open, close, i);
    if FirstDelimited(s, open, close, i).Some? {
      var p := FirstDelimitedFound(s, open, close, i);
    }
  }

  /** The search fails exactly when no position from `i` on matches. */
  lemma {:induction false} FirstDelimitedNone(s: string, open: string, close: char, i: nat)
    requires i <= |s|
    ensures FirstDelimited(s, open, close, i).None? <==>
      forall p :: i <= p <= |s| ==> DelimitedAt(s, open, close, p).None?
    decreases |s| - i
  {
    if i < |s| && DelimitedAt(s, open, close, i).None? {
      FirstDelimitedNone(s, open, close, i + 1);
    }
  }

  /** Where a successful search matched: the leftmost matching position. */
  lemma {:induction false} FirstDelimitedFound(s: string, open: string, close: char, i: nat) returns (p: nat)
    requires i <= |s| && FirstDelimited(s, open, close, i).Some?
    ensures i <= p <= |s| && DelimitedAt(s, open, close, p) == FirstDelimited(s, open, close, i)
    ensures forall q :: i <= q < p ==> DelimitedAt(s, open, close, q).None?
    decreases |s| - i
  {
    if i == |s| || DelimitedAt(s, open, close, i).Some? {
      p := i;
    } else {
      p := FirstDelimitedFound(s, open, close, i + 1);
    }
  }

  /** A match at `p` with none before it is what the search from the start returns. */
  lemma FirstDelimitedAt(s: string, open: string, close: char, p: nat)
    requires p <= |s| && DelimitedAt(s, open, close, p).Some?
    requires forall q :: 0 <= q < p ==> DelimitedAt(s, open, close, q).None?
    ensures FirstDelimited(s, open, close, 0).Some?
    ensures FirstDelimited(s, open, close, 0).value == DelimitedAt(s, open, close, p).value
  {
    FirstDelimitedNone(s, open, close, 0);
    var p' := FirstDelimitedFound(s, open, close, 0);
    assert p' == p;
  }

  /** A match that lies inside `a` is not disturbed by text appended after it. */
  lemma DelimitedAtExtend(a: string, b: string, open: string, close: char, p: nat, e: nat)
    requires p + |open| <= e < |a|
    requires a[e] == close
    ensures DelimitedAt(a + b, open, close, p) == DelimitedAt(a, open, close, p)
  {
    OccursAtPrefix(a, b, open, p);
    if OccursAt(a, open, p) {
      var c := p + |open|;
      assert RunEnd(a, c, close) <= e;
      RunEndExtend(a, b, c, close);
      assert (a + b)[c..RunEnd(a, c, close)] == a[c..RunEnd(a, c, close)];
    }
  }

  /** Appending text never changes a search that already succeeds. */
  lemma FirstDelimitedExtend(a: string, b: string, open: string, close: char, i: nat)
    requires i <= |a|
    requires FirstDelimited(a, open, close, i).Some?
    ensures FirstDelimited(a + b, open, close, i) == FirstDelimited(a, open, close, i)
  {
    var p := FirstDelimitedFound(a, open, close, i);
    var g := DelimitedAt(a, open, close, p).value;
    assert OccursAt(a, open + g + [close], p);
    var e := p + |open| + |g|;
    assert a[e] == (open + g + [close])[|open| + |g|] == close;
    FirstDelimitedExtendBelow(a, b, open, close, i, p, e);
  }

  /**
   * A search from `i` that meets a match at `p`, closed at `e` inside `a`, before
   * leaving `a` is not disturbed by text appended after `a`.
   */
  lemma {:induction false} FirstDelimitedExtendBelow(a: string, b: string, open: string, close: char, i: nat, p: nat, e: nat)
    requires i <= p && p + |open| <= e < |a| && a[e] == close
    requires DelimitedAt(a, open, close, p).Some?
    ensures FirstDelimited(a + b, open, close, i) == FirstDelimited(a, open, close, i)
    decreases p - i
  {
    DelimitedAtExtend(a, b, open, close, i, e);
    if i < p && DelimitedAt(a, open, close, i).None? {
      FirstDelimitedExtendBelow(a, b, open, close, i + 1, p, e);
    }
  }

  /** A match starting in `b` is recognised, shifted, in `a + b`. */
  lemma DelimitedAtShift(a: string, b: string, open: string, close: char, p: nat)
    requires p <= |b|
    ensures DelimitedAt(a + b, open, close, |a| + p) == DelimitedAt(b, open, close, p)
  {
    OccursAtShift(a, b, open, p);
    if OccursAt(b, open, p) {
      var c := p + |open|;
      RunEndShift(a, b, c, close);
      var e := RunEnd(b, c, close);
      assert (a + b)[|a| + c..|a| + e] == b[c..e];
    }
  }

  /**
   * When `a` ends with the closing character, which the opener does not contain,
   * and `a` holds no match, the search over `a + b` finds what the search over `b` finds.
   */
  lemma {:induction false} FirstDelimitedSkip(a: string, b: string, open: string, close: char, i: nat)
    requires i <= |a| && |a| > 0 && a[|a| - 1] == close && close !in open
    requires FirstDelimited(a, open, close, i).None?
    ensures FirstDelimited(a + b, open, close, i) == FirstDelimited(b, open, close, 0)
    decreases |a| - i
  {
    if i == |a| {
      FirstDelimitedShift(a, b, open, close, 0);
    } else {
      assert DelimitedAt(a, open, close, i).None? && FirstDelimited(a, open, close, i + 1).None?;
      assert DelimitedAt(a + b, open, close, i).None? by {
        if i + |open| <= |a| - 1 {
          DelimitedAtExtend(a, b, open, close, i, |a| - 1);
        } else {
          OpenerCannotCover(a, b, open, close, i);
        }
      }
      assert FirstDelimited(a + b, open, close, i) == FirstDelimited(a + b, open, close, i + 1);
      FirstDelimitedSkip(a, b, open, close, i + 1);
    }
  }

  /** An opener free of the closing character cannot straddle a closing character that ends `a`. */
  lemma OpenerCannotCover(a: string, b: string, open: string, close: char, i: nat)
    requires i < |a| <= i + |open| && a[|a| - 1] == close && close !in open
    ensures !OccursAt(a + b, open, i)
  {
    assert (a + b)[|a| - 1] == close;
  }

  /** The search over `a + b` from a position inside `b` is the search over `b`. */
  lemma {:induction false} FirstDelimitedShift(a: string, b: string, open: string, close: char, i: nat)
    requires i <= |b|
    ensures FirstDelimited(a + b, open, close, |a| + i) == FirstDelimited(b, open, close, i)
    decreases |b| - i
  {
    DelimitedAtShift(a, b, open, close, i);
    if i == |b| {
      assert |a| + i == |a + b|;
    } else if DelimitedAt(b, open, close, i).Some? {
    } else {
      FirstDelimitedShift(a, b, open, close, i + 1);
      assert |a| + i + 1 == |a| + (i + 1);
    }
  }
}
