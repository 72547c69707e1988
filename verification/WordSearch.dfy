/** Identifiers, and where they stand in a text as whole words. */
module WordSearch {
  import opened TextSearch
  import opened ImportLines

  predicate IsWordChar(c: char)
  {
    IsNameChar(c) || 'A' <= c <= 'Z'
  }

  /** An identifier. */
  predicate IsWord(s: string)
  {
    s != "" && forall i | 0 <= i < |s| :: IsWordChar(s[i])
  }

  /** Whether a word starts or ends between two characters. */
  predicate Boundary(s: string, i: nat)
  {
    (0 < i <= |s| && IsWordChar(s[i - 1])) != (i < |s| && IsWordChar(s[i]))
  }

  predicate MentionedAt(name: string, body: string, i: nat)
  {
    At(name, body, i) && Boundary(body, i) && Boundary(body, i + |name|)
  }

  predicate Mentions(name: string, body: string)
  {
    exists i | 0 <= i <= |body| :: MentionedAt(name, body, i)
  }

  /** The name stands there, with no word character beside it. */
  predicate StandsAt(name: string, body: string, i: nat)
  {
    && At(name, body, i)
    && (i > 0 ==> !IsWordChar(body[i - 1]))
    && (i + |name| < |body| ==> !IsWordChar(body[i + |name|]))
  }

  /** For an identifier, being mentioned is to stand somewhere as a whole word. */
  lemma MentionsWholeWord(name: string, body: string)
    requires IsWord(name)
    ensures Mentions(name, body) <==> exists i: nat :: StandsAt(name, body, i)
  {
    forall i: nat ensures MentionedAt(name, body, i) <==> StandsAt(name, body, i) {
      if At(name, body, i) {
        assert body[i..i + |name|][0] == body[i];
        assert body[i..i + |name|][|name| - 1] == body[i + |name| - 1];
      }
    }
    if i: nat :| StandsAt(name, body, i) {
      assert MentionedAt(name, body, i);
    }
  }
}
