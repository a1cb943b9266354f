/**
 * Emoji stripping for a single comment (`remove_emoji`).
 *
 * The emoji detector is a parameter: for a text it yields the detected emoji
 * substrings in the order the detector's dictionary lists them. Each one is
 * removed with Python's `str.replace(emoji, '')`, modelled here by `RemoveAll`.
 */
module TextSanitizer {

  /** `p` occurs in `s` starting at index `i`. */
  ghost predicate OccursAt(p: string, s: string, i: int) {
    0 <= i && i + |p| <= |s| && s[i..i + |p|] == p
  }

  /** `p` occurs somewhere in `s`. */
  ghost predicate Occurs(p: string, s: string) {
    exists i :: OccursAt(p, s, i)
  }

  /**
   * Python's `s.replace(p, '')`: scanning from the left, every non-overlapping
   * occurrence of `p` is deleted and the scan resumes after it. Replacing the
   * empty pattern with the empty string leaves `s` as it is.
   */
  function RemoveAll(s: string, p: string): (r: string)
    ensures |r| <= |s|
    ensures multiset(r) <= multiset(s)
    decreases |s|
  {
    if p == "" || |s| < |p| then s
    else if s[..|p|] == p then
      assert s == s[..|p|] + s[|p|..];
      RemoveAll(s[|p|..], p)
    else
      assert s == [s[0]] + s[1..];
      [s[0]] + RemoveAll(s[1..], p)
  }

  /** A pattern that does not occur is not removed: the text comes back unchanged. */
  lemma {:induction false} RemoveAllAbsent(s: string, p: string)
    requires !Occurs(p, s)
    ensures RemoveAll(s, p) == s
    decreases |s|
  {
    if p == "" || |s| < |p| {
    } else if s[..|p|] == p {
      assert OccursAt(p, s, 0);
    } else {
      var t := s[1..];
      forall i | OccursAt(p, t, i)
        ensures false
      {
        assert t[i..i + |p|] == s[i + 1..i + 1 + |p|];
        assert OccursAt(p, s, i + 1);
      }
      RemoveAllAbsent(t, p);
    }
  }

  /** An occurrence at a positive index is an occurrence one index earlier in the tail. */
  lemma ShiftOccurrence(p: string, s: string, i: int)
    requires 1 <= i && 1 <= |s|
    ensures OccursAt(p, s, i) <==> OccursAt(p, s[1..], i - 1)
  {
    if i + |p| <= |s| {
      assert s[1..][i - 1..i - 1 + |p|] == s[i..i + |p|];
    }
  }

  /** `RemoveAll` when the text starts with the pattern. */
  lemma UnfoldMatch(s: string, p: string)
    requires p != "" && OccursAt(p, s, 0)
    ensures RemoveAll(s, p) == RemoveAll(s[|p|..], p)
  {
    assert s[..|p|] == s[0..0 + |p|];
  }

  /** `RemoveAll` when the text does not start with the pattern. */
  lemma UnfoldNoMatch(s: string, p: string)
    requires p != "" && |p| <= |s| && !OccursAt(p, s, 0)
    ensures RemoveAll(s, p) == [s[0]] + RemoveAll(s[1..], p)
  {
    assert s[..|p|] == s[0..0 + |p|];
  }

  /** Dropping the first character of the prefix keeps its occurrence-free positions so. */
  lemma ShiftPrefix(u: string, v: string, p: string)
    requires u != []
    requires forall i :: 0 <= i < |u| ==> !OccursAt(p, u + v, i)
    ensures (u + v)[1..] == u[1..] + v
    ensures forall i :: 0 <= i < |u| - 1 ==> !OccursAt(p, u[1..] + v, i)
  {
    assert (u + v)[1..] == u[1..] + v;
    forall i | 0 <= i < |u| - 1
      ensures !OccursAt(p, u[1..] + v, i)
    {
      ShiftOccurrence(p, u + v, i + 1);
    }
  }

  /** The step of `RemoveAllKeepsPrefix`: a first character that starts no occurrence is kept. */
  lemma KeepFirstChar(u: string, v: string, p: string)
    requires p != "" && u != [] && |p| <= |u + v| && !OccursAt(p, u + v, 0)
    requires (u + v)[1..] == u[1..] + v
    requires RemoveAll(u[1..] + v, p) == u[1..] + RemoveAll(v, p)
    ensures RemoveAll(u + v, p) == u + RemoveAll(v, p)
  {
    var x, w, rest := u + v, u[1..], RemoveAll(v, p);
    UnfoldNoMatch(x, p);
    assert RemoveAll(x, p) == [u[0]] + (w + rest);
    ConsAppend(u, rest);
  }

  /** Putting the first character back in front of the tail and then appending. */
  lemma ConsAppend(u: string, t: string)
    requires u != []
    ensures [u[0]] + (u[1..] + t) == u + t
  {
    assert u == [u[0]] + u[1..];
  }

  /** A prefix in which no occurrence starts is kept whole, and removal goes on after it. */
  lemma {:induction false} RemoveAllKeepsPrefix(u: string, v: string, p: string)
    requires p != ""
    requires forall i :: 0 <= i < |u| ==> !OccursAt(p, u + v, i)
    ensures RemoveAll(u + v, p) == u + RemoveAll(v, p)
    decreases |u|
  {
    if u == [] {
      assert u + v == v;
    } else if |u + v| < |p| {
      assert |v| < |p|;
    } else {
      var w := u[1..];
      ShiftPrefix(u, v, p);
      RemoveAllKeepsPrefix(w, v, p);
      KeepFirstChar(u, v, p);
    }
  }

  /**
   * Everything before the first occurrence of `p` is kept, that occurrence is
   * deleted, and the scan goes on after it. With `RemoveAllAbsent` this pins
   * `RemoveAll` down for patterns of any length: every non-overlapping
   * occurrence found from the left is deleted and every other character kept.
   */
  lemma {:induction false} RemoveAllFirstOccurrence(s: string, p: string, k: nat)
    requires p != "" && OccursAt(p, s, k)
    requires forall i :: 0 <= i < k ==> !OccursAt(p, s, i)
    ensures RemoveAll(s, p) == s[..k] + RemoveAll(s[k + |p|..], p)
  {
    var u, v := s[..k], s[k..];
    assert s == u + v;
    RemoveAllKeepsPrefix(u, v, p);
    assert v[0..0 + |p|] == s[k..k + |p|];
    UnfoldMatch(v, p);
    assert v[|p|..] == s[k + |p|..];
  }

  /** Both occurrences of "ab" in "abab" are deleted, not just the first. */
  lemma RemoveAllDeletesEveryOccurrence()
    ensures RemoveAll("abab", "ab") == ""
  {
    assert "abab"[..2] == "ab" && "abab"[2..] == "ab";
    assert "ab"[..2] == "ab" && "ab"[2..] == "";
  }

  /** A pattern that occurs is removed at least once, so the text gets strictly shorter. */
  lemma {:induction false} RemoveAllShrinks(s: string, p: string)
    requires p != "" && Occurs(p, s)
    ensures |RemoveAll(s, p)| < |s|
    decreases |s|
  {
    var i :| OccursAt(p, s, i);
    if s[..|p|] != p {
      assert i != 0;
      assert s[1..][i - 1..i - 1 + |p|] == s[i..i + |p|];
      assert OccursAt(p, s[1..], i - 1);
      RemoveAllShrinks(s[1..], p);
    }
  }

  /** Removing a one-character pattern removes every occurrence of that character. */
  lemma {:induction false} RemoveAllDropsChar(s: string, c: char)
    ensures c !in RemoveAll(s, [c])
    decreases |s|
  {
    if |s| >= 1 {
      RemoveAllDropsChar(s[1..], c);
      if s[..1] != [c] {
        assert s[0] != c;
      }
    }
  }

  /**
   * Deletion does not guarantee that the pattern is gone: deleting the inner
   * "ab" of "aabb" joins the outer characters into a new "ab".
   */
  lemma RemoveAllMayLeaveOccurrence()
    ensures RemoveAll("aabb", "ab") == "ab"
    ensures Occurs("ab", RemoveAll("aabb", "ab"))
  {
    assert "aabb"[..2] == "aa";
    assert "aabb"[1..] == "abb";
    assert "abb"[..2] == "ab";
    assert "abb"[2..] == "b";
    assert RemoveAll("abb", "ab") == "b";
    assert OccursAt("ab", "ab", 0);
  }

  /**
   * `r` is obtained from `s` by deleting characters: the characters of `r`
   * appear in `s` in the same order.
   */
  ghost predicate SubseqOf(r: string, s: string)
    decreases |s|
  {
    r == [] ||
    (s != [] && ((r[0] == s[0] && SubseqOf(r[1..], s[1..])) || SubseqOf(r, s[1..])))
  }

  /** Reordering is not deletion: "ba" is not a subsequence of "ab". */
  lemma SubseqOfKeepsOrder()
    ensures !SubseqOf("ba", "ab")
  {
    assert "ab"[1..] == "b" && "b"[1..] == "";
    assert !SubseqOf("ba", "b");
  }

  /** Every text is a subsequence of itself. */
  lemma {:induction false} SubseqOfSelf(s: string)
    ensures SubseqOf(s, s)
    decreases |s|
  {
    if s != [] {
      SubseqOfSelf(s[1..]);
    }
  }

  /** A subsequence of a suffix is a subsequence of the whole text. */
  lemma {:induction false} SubseqOfSuffix(r: string, s: string, k: nat)
    requires k <= |s| && SubseqOf(r, s[k..])
    ensures SubseqOf(r, s)
    decreases k
  {
    if k > 0 {
      assert s[1..][k - 1..] == s[k..];
      SubseqOfSuffix(r, s[1..], k - 1);
    }
  }

  /** Deleting from a text obtained by deleting is still deleting. */
  lemma {:induction false} SubseqOfTransitive(a: string, b: string, c: string)
    requires SubseqOf(a, b) && SubseqOf(b, c)
    ensures SubseqOf(a, c)
    decreases |c|
  {
    if a != [] {
      if b[0] == c[0] && SubseqOf(b[1..], c[1..]) {
        if a[0] == b[0] && SubseqOf(a[1..], b[1..]) {
          SubseqOfTransitive(a[1..], b[1..], c[1..]);
        } else {
          SubseqOfTransitive(a, b[1..], c[1..]);
        }
      } else {
        SubseqOfTransitive(a, b, c[1..]);
      }
    }
  }

  /**
   * Removal keeps the remaining characters in their original order: the
   * result is a subsequence of the text.
   */
  lemma {:induction false} RemoveAllSubseq(s: string, p: string)
    ensures SubseqOf(RemoveAll(s, p), s)
    decreases |s|
  {
    if p == "" || |s| < |p| {
      SubseqOfSelf(s);
    } else if s[..|p|] == p {
      RemoveAllSubseq(s[|p|..], p);
      SubseqOfSuffix(RemoveAll(s[|p|..], p), s, |p|);
    } else {
      RemoveAllSubseq(s[1..], p);
      assert ([s[0]] + RemoveAll(s[1..], p))[1..] == RemoveAll(s[1..], p);
    }
  }

  /**
   * The successive replacements of `remove_emoji`: each detected emoji, in the
   * order given, is removed from the result of the previous removals.
   */
  function StripEmoji(s: string, emojis: seq<string>): (r: string)
    ensures |r| <= |s|
    ensures multiset(r) <= multiset(s)
    decreases |emojis|
  {
    if emojis == [] then s
    else RemoveAll(StripEmoji(s, emojis[..|emojis| - 1]), emojis[|emojis| - 1])
  }

  /** The successive removals keep the remaining characters in their original order. */
  lemma {:induction false} StripEmojiSubseq(s: string, emojis: seq<string>)
    ensures SubseqOf(StripEmoji(s, emojis), s)
    decreases |emojis|
  {
    if emojis == [] {
      SubseqOfSelf(s);
    } else {
      var before := StripEmoji(s, emojis[..|emojis| - 1]);
      StripEmojiSubseq(s, emojis[..|emojis| - 1]);
      RemoveAllSubseq(before, emojis[|emojis| - 1]);
      SubseqOfTransitive(RemoveAll(before, emojis[|emojis| - 1]), before, s);
    }
  }

  /** If none of the detected emoji occurs in the text, the text is returned unmodified. */
  lemma {:induction false} StripEmojiAbsent(s: string, emojis: seq<string>)
    requires forall e :: e in emojis ==> !Occurs(e, s)
    ensures StripEmoji(s, emojis) == s
    decreases |emojis|
  {
    if emojis != [] {
      StripEmojiAbsent(s, emojis[..|emojis| - 1]);
      RemoveAllAbsent(s, emojis[|emojis| - 1]);
    }
  }

  /**
   * A detected single-character emoji does not occur in the result, whatever
   * the position of its removal among the others.
   */
  lemma {:induction false} StripEmojiDropsSingleChars(s: string, emojis: seq<string>, c: char)
    requires [c] in emojis
    ensures c !in StripEmoji(s, emojis)
    decreases |emojis|
  {
    var prefix, last := emojis[..|emojis| - 1], emojis[|emojis| - 1];
    var before := StripEmoji(s, prefix);
    if last == [c] {
      RemoveAllDropsChar(before, c);
    } else {
      assert emojis == prefix + [last];
      StripEmojiDropsSingleChars(s, prefix, c);
      assert multiset(before)[c] == 0;
      assert multiset(RemoveAll(before, last))[c] == 0;
    }
  }

  /**
   * `remove_emoji`: asks the detector for the emoji of `text` and removes each
   * of them, in turn, from the running text.
   */
  method RemoveEmoji(text: string, findEmoji: string -> seq<string>) returns (demojiText: string)
    ensures demojiText == StripEmoji(text, findEmoji(text))
    ensures |demojiText| <= |text|
    ensures SubseqOf(demojiText, text)
    ensures (forall e :: e in findEmoji(text) ==> !Occurs(e, text)) ==> demojiText == text
    ensures forall c :: [c] in findEmoji(text) ==> c !in demojiText
  {
    var emojis := findEmoji(text);
    demojiText := text;
    for i := 0 to |emojis|
      invariant demojiText == StripEmoji(text, emojis[..i])
    {
      assert emojis[..i + 1][..i] == emojis[..i];
      demojiText := RemoveAll(demojiText, emojis[i]);
    }
    assert emojis[..|emojis|] == emojis;
    StripEmojiSubseq(text, emojis);
    if forall e :: e in emojis ==> !Occurs(e, text) {
      StripEmojiAbsent(text, emojis);
    }
    forall c | [c] in emojis
      ensures c !in demojiText
    {
      StripEmojiDropsSingleChars(text, emojis, c);
    }
  }
}
