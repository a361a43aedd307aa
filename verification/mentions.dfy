/**
 * The text of a broadcast: one mention per registered username, without repeats,
 * joined by single spaces, followed by the reminder text (main.js:41-42, 191-193).
 */
module Mentions {

  /** No element occurs twice. */
  predicate NoDuplicates<T(==)>(xs: seq<T>)
  {
    forall i, j :: 0 <= i < j < |xs| ==> xs[i] != xs[j]
  }

  /** The position of the first occurrence of x in xs. */
  function FirstIndex<T(==)>(xs: seq<T>, x: T): (i: nat)
    requires x in xs
    ensures i < |xs| && xs[i] == x
    ensures x !in xs[..i]
  {
    if xs[0] == x then 0
    else
      assert xs == [xs[0]] + xs[1..];
      var j := FirstIndex(xs[1..], x);
      assert xs[..j + 1] == [xs[0]] + xs[1..][..j];
      j + 1
  }

  /** Extending a sequence does not move the first occurrence of an element it already holds. */
  lemma {:induction false} FirstIndexOfPrefix<T>(xs: seq<T>, ys: seq<T>, x: T)
    requires x in xs
    ensures FirstIndex(xs + ys, x) == FirstIndex(xs, x)
  {
    if xs[0] != x {
      assert xs == [xs[0]] + xs[1..];
      assert (xs + ys)[1..] == xs[1..] + ys;
      FirstIndexOfPrefix(xs[1..], ys, x);
    }
  }

  /** An element missing from xs first occurs in xs + ys where it first occurs in ys. */
  lemma {:induction false} FirstIndexPastPrefix<T>(xs: seq<T>, ys: seq<T>, x: T)
    requires x !in xs && x in ys
    ensures FirstIndex(xs + ys, x) == |xs| + FirstIndex(ys, x)
  {
    if xs == [] {
      assert xs + ys == ys;
    } else {
      var zs := xs + ys;
      assert zs[0] == xs[0] != x;
      assert zs[1..] == xs[1..] + ys;
      assert x !in xs[1..];
      FirstIndexPastPrefix(xs[1..], ys, x);
      assert FirstIndex(zs, x) == 1 + FirstIndex(zs[1..], x);
    }
  }

  /**
   * The elements of xs with repeats dropped, each kept where it first occurs:
   * what spreading a JavaScript `Set` built from xs yields.
   */
  function Distinct<T(==,!new)>(xs: seq<T>): (r: seq<T>)
    ensures NoDuplicates(r)
    ensures forall x :: x in r <==> x in xs
    ensures |r| <= |xs|
  {
    if xs == [] then []
    else
      var init := xs[..|xs| - 1];
      var last := xs[|xs| - 1];
      assert xs == init + [last];
      var prev := Distinct(init);
      if last in prev then prev else prev + [last]
  }

  /** Distinct lists the elements in the order of their first occurrence in xs. */
  lemma {:induction false} DistinctKeepsFirstOccurrenceOrder<T(!new)>(xs: seq<T>)
    ensures forall i, j :: 0 <= i < j < |Distinct(xs)| ==>
      FirstIndex(xs, Distinct(xs)[i]) < FirstIndex(xs, Distinct(xs)[j])
  {
    if xs != [] {
      var init := xs[..|xs| - 1];
      var last := xs[|xs| - 1];
      assert xs == init + [last];
      DistinctKeepsFirstOccurrenceOrder(init);
      var prev := Distinct(init);
      forall y | y in prev
        ensures FirstIndex(xs, y) == FirstIndex(init, y)
      {
        FirstIndexOfPrefix(init, [last], y);
      }
      if last !in prev {
        FirstIndexPastPrefix(init, [last], last);
      }
    }
  }

  /** A repeated element makes the result strictly shorter than the input. */
  lemma {:induction false} RepeatShortensDistinct<T(!new)>(xs: seq<T>, i: nat, j: nat)
    requires i < j < |xs| && xs[i] == xs[j]
    ensures |Distinct(xs)| < |xs|
  {
    var init := xs[..|xs| - 1];
    assert xs == init + [xs[|xs| - 1]];
    if j == |xs| - 1 {
      assert init[i] == xs[j];
    } else {
      RepeatShortensDistinct(init, i, j);
    }
  }

  predicate StartsWithAt(s: string)
  {
    |s| > 0 && s[0] == '@'
  }

  /** The mention of a stored username: the name itself if it starts with '@', otherwise '@' and the name. */
  function Mention(username: string): (m: string)
    ensures StartsWithAt(m)
    ensures m == username <==> StartsWithAt(username)
    ensures !StartsWithAt(username) ==> m[1..] == username
  {
    if StartsWithAt(username) then username else "@" + username
  }

  /** A bare name and the same name with a leading '@' are mentioned alike. */
  lemma BareAndPrefixedMentionAlike(name: string)
    requires !StartsWithAt(name)
    ensures Mention(name) == Mention("@" + name) == "@" + name
  {
  }

  /** Mentioning is idempotent. */
  lemma MentionIdempotent(username: string)
    ensures Mention(Mention(username)) == Mention(username)
  {
  }

  /** `usernames.map(...)`: the mention of every username, in order. */
  function MentionAll(usernames: seq<string>): (ms: seq<string>)
    ensures |ms| == |usernames|
    ensures forall i :: 0 <= i < |usernames| ==> ms[i] == Mention(usernames[i])
  {
    seq(|usernames|, i requires 0 <= i < |usernames| => Mention(usernames[i]))
  }

  /** The mentions of the usernames, repeats removed, in first-seen order. */
  function MentionsOf(usernames: seq<string>): (r: seq<string>)
    ensures NoDuplicates(r)
    ensures forall m :: m in r ==> StartsWithAt(m)
    ensures forall u :: u in usernames ==> Mention(u) in r
    ensures forall m :: m in r ==> exists u :: u in usernames && Mention(u) == m
    ensures |r| <= |usernames|
    ensures r == [] <==> usernames == []
  {
    var ms := MentionAll(usernames);
    assert forall u :: u in usernames ==> Mention(u) in ms;
    assert forall m :: m in ms ==> exists u :: u in usernames && Mention(u) == m;
    assert usernames != [] ==> ms[0] in ms;
    Distinct(ms)
  }

  /** `alice` and `@alice` among the usernames yield the one mention `@alice`, and fewer mentions than names. */
  lemma BareAndPrefixedCollapse(usernames: seq<string>, i: nat, j: nat)
    requires i < |usernames| && j < |usernames| && i != j
    requires !StartsWithAt(usernames[i]) && usernames[j] == "@" + usernames[i]
    ensures "@" + usernames[i] in MentionsOf(usernames)
    ensures |MentionsOf(usernames)| < |usernames|
  {
    var ms := MentionAll(usernames);
    BareAndPrefixedMentionAlike(usernames[i]);
    assert ms[i] == ms[j];
    if i < j {
      RepeatShortensDistinct(ms, i, j);
    } else {
      RepeatShortensDistinct(ms, j, i);
    }
  }

  /** `parts.join(' ')`. */
  function Join(parts: seq<string>): (r: string)
    ensures r == "" <==> parts == [] || parts == [""]
    ensures |parts| >= 1 ==> parts[0] <= r
    ensures |parts| >= 2 ==> ' ' in r
  {
    if |parts| == 0 then ""
    else if |parts| == 1 then parts[0]
    else
      var r := parts[0] + " " + Join(parts[1..]);
      assert r[|parts[0]|] == ' ';
      r
  }

  /** `s.split(' ')`: the pieces between single spaces. */
  function Split(s: string): (r: seq<string>)
    ensures |r| >= 1
    ensures forall p :: p in r ==> ' ' !in p
    decreases |s|
  {
    if ' ' !in s then [s]
    else
      var i := FirstIndex(s, ' ');
      [s[..i]] + Split(s[i + 1..])
  }

  /** Joining pieces without spaces and splitting the result gives the pieces back. */
  lemma {:induction false} SplitJoin(parts: seq<string>)
    requires |parts| >= 1
    requires forall p :: p in parts ==> ' ' !in p
    ensures Split(Join(parts)) == parts
  {
    if |parts| > 1 {
      var p, rest := parts[0], parts[1..];
      var s := Join(parts);
      assert s == p + (" " + Join(rest));
      FirstIndexPastPrefix(p, " " + Join(rest), ' ');
      var i := FirstIndex(s, ' ');
      assert i == |p|;
      assert s[..i] == p;
      assert s[i + 1..] == Join(rest);
      assert parts == [p] + rest;
      SplitJoin(rest);
    }
  }

  /** The space-joined mention list (main.js:41 and 191). */
  function MentionList(usernames: seq<string>): (r: string)
    ensures r == "" <==> usernames == []
    ensures usernames != [] ==> r[0] == '@'
  {
    var ms := MentionsOf(usernames);
    assert ms != [] ==> ms[0] in ms && ms[0] <= Join(ms);
    Join(ms)
  }

  /** Each mention is its own space-separated token when no username holds a space. */
  lemma MentionListTokens(usernames: seq<string>)
    requires usernames != []
    requires forall u :: u in usernames ==> ' ' !in u
    ensures Split(MentionList(usernames)) == MentionsOf(usernames)
  {
    var ms := MentionsOf(usernames);
    forall m | m in ms
      ensures ' ' !in m
    {
      var u :| u in usernames && Mention(u) == m;
      if !StartsWithAt(u) {
        assert m == "@" + u;
        assert m == ['@'] + u;
      }
    }
    SplitJoin(ms);
  }

  /** `filter(Boolean)` on strings: keeps the non-empty ones, in order. */
  function NonEmpty(parts: seq<string>): (r: seq<string>)
    ensures forall p :: p in r <==> p in parts && p != ""
    ensures forall p :: multiset(r)[p] == if p == "" then 0 else multiset(parts)[p]
    ensures "" !in parts ==> r == parts
  {
    if parts == [] then []
    else
      assert parts == [parts[0]] + parts[1..];
      (if parts[0] == "" then [] else [parts[0]]) + NonEmpty(parts[1..])
  }

  /** Filtering two runs of strings filters each and keeps them in that order. */
  lemma {:induction false} NonEmptyAppend(a: seq<string>, b: seq<string>)
    ensures NonEmpty(a + b) == NonEmpty(a) + NonEmpty(b)
  {
    if a == [] {
      assert a + b == b;
    } else {
      assert (a + b)[0] == a[0];
      assert (a + b)[1..] == a[1..] + b;
      NonEmptyAppend(a[1..], b);
    }
  }

  /** `[mentions, text].filter(Boolean).join(' ')` (main.js:42). */
  function ComposeMessage(mentions: string, text: string): (r: string)
    ensures mentions != "" && text != "" ==> r == mentions + " " + text
    ensures mentions == "" ==> r == text
    ensures text == "" ==> r == mentions
  {
    var parts := NonEmpty([mentions, text]);
    assert [mentions, text] == [mentions] + [text];
    assert parts == NonEmpty([mentions]) + NonEmpty([text]) by {
      assert [mentions, text][1..] == [text];
    }
    assert NonEmpty([text]) == (if text == "" then [] else [text]) by {
      assert [text][1..] == [];
    }
    assert NonEmpty([mentions]) == (if mentions == "" then [] else [mentions]) by {
      assert [mentions][1..] == [];
    }
    assert mentions != "" && text != "" ==> Join(parts) == mentions + " " + Join([text]) by {
      assert [mentions, text][1..] == [text];
    }
    Join(parts)
  }

  const NoMembersToTag := "No members to tag."

  /** The reply to `/tagall`: the mention list, or a fixed notice when it is empty (main.js:193). */
  function TagAllText(usernames: seq<string>): (r: string)
    ensures r == NoMembersToTag <==> usernames == []
    ensures usernames != [] ==> r == MentionList(usernames)
  {
    var m := MentionList(usernames);
    if |m| > 0 then m else NoMembersToTag
  }
}
