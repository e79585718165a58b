/** The topic slug: `topic.lower().replace(" ", "_")`, the name of the
    directory a topic's store lives in. Lower-casing is modelled over ASCII. */
module Topics {

  /** `str.lower` on one character: A-Z become a-z, everything else is kept. */
  function LowerChar(c: char): char {
    if 'A' <= c <= 'Z' then (c as int + 32) as char else c
  }

  /** `str.lower`: every character lowered, none added or removed. */
  function Lower(s: string): (r: string)
    ensures |r| == |s|
    ensures forall i :: 0 <= i < |s| ==> r[i] == LowerChar(s[i])
  {
    if |s| == 0 then [] else [LowerChar(s[0])] + Lower(s[1..])
  }

  /** `str.replace(old, new)` for single characters: every occurrence of
      `old` becomes `new`, every other character is kept in place. */
  function Replace(s: string, from: char, to: char): (r: string)
    ensures |r| == |s|
    ensures forall i :: 0 <= i < |s| ==> r[i] == (if s[i] == from then to else s[i])
  {
    if |s| == 0 then [] else [if s[0] == from then to else s[0]] + Replace(s[1..], from, to)
  }

  /** The character a topic character becomes in the slug. */
  function SlugChar(c: char): char {
    if c == ' ' then '_' else LowerChar(c)
  }

  /** The directory name for a topic. It is as long as the topic, holds no
      space and no upper-case ASCII letter, and each position depends on the
      topic's character at that position only. */
  function Slug(topic: string): (r: string)
    ensures |r| == |topic|
    ensures forall i :: 0 <= i < |r| ==> r[i] != ' ' && !('A' <= r[i] <= 'Z')
    ensures forall i :: 0 <= i < |r| ==> r[i] == SlugChar(topic[i])
  {
    Replace(Lower(topic), ' ', '_')
  }

  /** Slugging a slug changes nothing. */
  lemma SlugIdempotent(topic: string)
    ensures Slug(Slug(topic)) == Slug(topic)
  {
    var s := Slug(topic);
    forall i | 0 <= i < |s|
      ensures Slug(s)[i] == s[i]
    {
      assert s[i] != ' ' && !('A' <= s[i] <= 'Z');
    }
  }

  /** Two topics have the same slug exactly when they have the same length
      and agree position by position up to case and space-versus-underscore.
      (Distinct slugs can still name one store, as `ai` and `ai/` do once
      joined into a path.) */
  lemma SameSlug(a: string, b: string)
    ensures Slug(a) == Slug(b) <==>
      |a| == |b| && forall i :: 0 <= i < |a| ==> SlugChar(a[i]) == SlugChar(b[i])
  {
    if |a| == |b| && forall i :: 0 <= i < |a| ==> SlugChar(a[i]) == SlugChar(b[i]) {
      assert forall i :: 0 <= i < |a| ==> Slug(a)[i] == Slug(b)[i];
    }
    if Slug(a) == Slug(b) {
      forall i | 0 <= i < |a|
        ensures SlugChar(a[i]) == SlugChar(b[i])
      {
        assert Slug(a)[i] == Slug(b)[i];
      }
    }
  }
}
