/** The console markup filter of logOut(): one left-to-right pass of
    preg_replace with the pattern <[a-z/]+> and an empty replacement. */
module Markup {

  predicate IsTagChar(c: char) {
    'a' <= c <= 'z' || c == '/'
  }

  /** t is one whole match of <[a-z/]+>: a '<', one or more of [a-z/], a '>'. */
  predicate IsTag(t: string) {
    |t| >= 3 && t[0] == '<' && t[|t| - 1] == '>' &&
    forall i :: 1 <= i < |t| - 1 ==> IsTagChar(t[i])
  }

  /** The slice t[i..j] is a whole match of <[a-z/]+>. */
  predicate TagAt(t: string, i: nat, j: nat)
    requires i <= j <= |t|
  {
    IsTag(t[i..j])
  }

  /** No slice of t is a whole match of <[a-z/]+>; a '<' may still occur, as in "a < b". */
  predicate NoTagIn(t: string) {
    forall i: nat, j: nat :: i < j <= |t| ==> !TagAt(t, i, j)
  }

  /** The length of the longest prefix of s made of [a-z/]. */
  function TagCharRun(s: string): (n: nat)
    ensures n <= |s|
    ensures forall i :: 0 <= i < n ==> IsTagChar(s[i])
    ensures n < |s| ==> !IsTagChar(s[n])
  {
    if |s| > 0 && IsTagChar(s[0]) then 1 + TagCharRun(s[1..]) else 0
  }

  /** The length of the match of <[a-z/]+> that starts at the head of s, 0 when
      none does. Since '>' is not in [a-z/], the greedy run is the only candidate. */
  function TagAtHead(s: string): (n: nat)
    ensures n <= |s|
    ensures n > 0 ==> IsTag(s[..n])
  {
    if |s| > 0 && s[0] == '<' then
      var run := TagCharRun(s[1..]);
      if run > 0 && run + 1 < |s| && s[run + 1] == '>' then run + 2 else 0
    else 0
  }

  /** preg_replace('/\<[a-z\/]+\>/', '', s): scanning from the left, every match is
      removed and the scan resumes after it; a character that starts no match is kept. */
  function StripTags(s: string): (r: string)
    ensures |r| <= |s|
    decreases |s|
  {
    if s == [] then []
    else
      var n := TagAtHead(s);
      if n > 0 then StripTags(s[n..]) else [s[0]] + StripTags(s[1..])
  }

  /** A tag at the head of s is exactly the match the pattern finds there. */
  lemma TagAtHeadOfTag(t: string, rest: string)
    requires IsTag(t)
    ensures TagAtHead(t + rest) == |t|
  {
    var s := (t + rest)[1..];
    var run := TagCharRun(s);
    assert forall i :: 0 <= i < |t| - 2 ==> s[i] == t[i + 1];
    assert s[|t| - 2] == '>';
    assert !IsTagChar(s[|t| - 2]);
    assert run == |t| - 2;
  }

  /** Text without '<' passes through and the scan goes on behind it. */
  lemma {:induction false} StripTagsTagFreePrefix(a: string, b: string)
    requires '<' !in a
    ensures StripTags(a + b) == a + StripTags(b)
  {
    if a != [] {
      var s := a + b;
      assert s[0] == a[0] && a[0] != '<';
      assert TagAtHead(s) == 0;
      assert s[1..] == a[1..] + b;
      StripTagsTagFreePrefix(a[1..], b);
      assert StripTags(s) == [a[0]] + (a[1..] + StripTags(b));
      assert [a[0]] + (a[1..] + StripTags(b)) == a + StripTags(b);
    } else {
      assert a + b == b;
    }
  }

  /** A tag at the head is removed as a whole. */
  lemma StripTagsLeadingTag(t: string, b: string)
    requires IsTag(t)
    ensures StripTags(t + b) == StripTags(b)
  {
    TagAtHeadOfTag(t, b);
    assert (t + b)[|t|..] == b;
  }

  /** Text without '<' holds no tag. */
  lemma NoTagInTagFree(t: string)
    requires '<' !in t
    ensures NoTagIn(t)
  {
    forall i: nat, j: nat | i < j <= |t|
      ensures !TagAt(t, i, j)
    {
      assert t[i..j][0] == t[i];
    }
  }

  /** A match that starts in a and does not end in a would have to run on into b;
      when b is empty or starts with '<', it cannot, so the match at the head of
      a + b ends within a. */
  lemma TagAtHeadWithin(a: string, b: string)
    requires a != []
    requires b == [] || b[0] == '<'
    ensures TagAtHead(a + b) <= |a|
  {
    var s := a + b;
    if s[0] == '<' && b != [] {
      assert s[1..][|a| - 1] == '<';
      assert s[|a|] == '<';
    }
  }

  /** No match starts at the head of a + b when a holds no tag and b cannot complete one. */
  lemma NoTagAtHead(a: string, b: string)
    requires a != [] && NoTagIn(a)
    requires b == [] || b[0] == '<'
    ensures TagAtHead(a + b) == 0
  {
    var s := a + b;
    var n := TagAtHead(s);
    TagAtHeadWithin(a, b);
    assert s[..n] == a[0..n];
    assert n > 0 ==> !TagAt(a, 0, n);
  }

  /** Dropping the first character of a text with no tag leaves a text with no tag. */
  lemma NoTagInTail(a: string)
    requires a != [] && NoTagIn(a)
    ensures NoTagIn(a[1..])
  {
    forall i: nat, j: nat | i < j <= |a| - 1
      ensures !TagAt(a[1..], i, j)
    {
      assert a[1..][i..j] == a[i + 1..j + 1];
      assert !TagAt(a, i + 1, j + 1);
    }
  }

  /** Text with no tag in it passes through when what follows cannot complete a
      match begun in it: the end of the text, or a '<'. */
  lemma {:induction false} StripTagsNoTagBefore(a: string, b: string)
    requires NoTagIn(a)
    requires b == [] || b[0] == '<'
    ensures StripTags(a + b) == a + StripTags(b)
  {
    if a == [] {
      assert a + b == b;
    } else {
      var s := a + b;
      assert StripTags(s) == [a[0]] + StripTags(a[1..] + b) by {
        NoTagAtHead(a, b);
        assert s[1..] == a[1..] + b;
      }
      assert StripTags(a[1..] + b) == a[1..] + StripTags(b) by {
        NoTagInTail(a);
        StripTagsNoTagBefore(a[1..], b);
      }
      HeadTailAppend(a, StripTags(b));
    }
  }

  lemma HeadTailAppend(a: string, x: string)
    requires a != []
    ensures [a[0]] + (a[1..] + x) == a + x
  {
    assert a == [a[0]] + a[1..];
  }

  /** Text with no tag in it is left unchanged. */
  lemma StripTagsIdentity(s: string)
    requires NoTagIn(s)
    ensures StripTags(s) == s
  {
    StripTagsNoTagBefore(s, []);
    assert s + [] == s;
  }

  /** A lone tag strips to nothing. */
  lemma StripTagsClosingTag(t: string)
    requires IsTag(t)
    ensures StripTags(t) == []
  {
    assert t == t + [];
    StripTagsLeadingTag(t, []);
  }

  /** Text with no tag in it, wrapped in an opening and a closing tag after a prefix
      without '<', loses exactly the two tags. */
  lemma StripTagsWrapped(prefix: string, open: string, body: string, close: string)
    requires '<' !in prefix && NoTagIn(body)
    requires IsTag(open) && IsTag(close)
    ensures StripTags(prefix + open + body + close) == prefix + body
  {
    var tail := body + close;
    var afterPrefix := open + tail;
    assert prefix + open + body + close == prefix + afterPrefix;
    StripTagsTagFreePrefix(prefix, afterPrefix);
    StripTagsLeadingTag(open, tail);
    StripTagsNoTagBefore(body, close);
    StripTagsClosingTag(close);
    calc {
      StripTags(prefix + afterPrefix);
      prefix + StripTags(afterPrefix);
      prefix + StripTags(tail);
      prefix + (body + StripTags(close));
      { assert body + [] == body; }
      prefix + body;
    }
  }

  /** A lone '<' holds no tag: a match is at least three characters long. */
  lemma NoTagInLessThan()
    ensures NoTagIn("<")
  {
    forall i: nat, j: nat | i < j <= 1
      ensures !TagAt("<", i, j)
    {
    }
  }

  /** Removing the inner tag of "<<b>b>" leaves "<b>". */
  lemma StripTagsNested()
    ensures StripTags("<<b>b>") == "<b>"
  {
    var inner := "<b>" + "b>";
    NoTagInLessThan();
    StripTagsNoTagBefore("<", inner);
    StripTagsLeadingTag("<b>", "b>");
    NoTagInTagFree("b>");
    StripTagsIdentity("b>");
    assert "<" + inner == "<<b>b>";
  }

  /** One pass is not idempotent: removing the inner tag of "<<b>b>" forms a new one,
      which a second pass would remove. */
  lemma StripTagsSinglePass()
    ensures StripTags("<<b>b>") == "<b>"
    ensures StripTags(StripTags("<<b>b>")) == ""
  {
    StripTagsNested();
    StripTagsClosingTag("<b>");
  }

}
