/** The human-readable notes of a rule, derived from the comments attached to
    its statement (parseNotes in auditfile/parse.go). */
module Notes {
  import opened Base
  import opened Text
  import opened Syntax

  /** The comment marker. */
  const Marker := "//"

  /** One note entry as the source computes it: strings.TrimPrefix with its
      arguments swapped, trimming the comment from the marker instead of the
      marker from the comment. */
  function NoteEntryAsWritten(token: string): (r: string)
    ensures |r| <= |Marker|
    ensures NoSpaceAtEnds(r)
  {
    var trimmed := TrimPrefix(Marker, token);
    var r := TrimSpace(trimmed);
    assert |r| <= |trimmed| by {
      var i, j :| TrimmedAt(trimmed, r, i, j);
    }
    r
  }

  /** As written, every comment that is not itself a prefix of the marker
      (every real comment: `// ...` with any text) yields the note `//`. */
  lemma AsWrittenEntryIsMarker(token: string)
    requires !HasPrefix(Marker, token)
    ensures NoteEntryAsWritten(token) == Marker
  {
    TrimSpaceOfTrimmed(Marker);
  }

  /** One note entry as intended: the comment without its marker and without
      surrounding white space. */
  function NoteEntry(token: string): string {
    TrimSpace(TrimPrefix(token, Marker))
  }

  /** The intended entry gives back the text of a `//` or `// ` comment. */
  lemma NoteEntryStripsMarker(text: string)
    requires forall k :: 0 <= k < |text| ==> !IsSpace(text[k])
    ensures NoteEntry(Marker + text) == text
    ensures NoteEntry(Marker + " " + text) == text
  {
    assert (Marker + text)[..2] == Marker;
    assert (Marker + text)[2..] == text;
    TrimSpaceOfTrimmed(text);
    var spaced := Marker + " " + text;
    assert spaced[..2] == Marker;
    assert spaced[2..] == [' '] + text;
    TrimSpaceSkipsLeadingSpace(' ', text);
  }

  /** The comments of a statement, leading ones first, then trailing ones. */
  function CommentTokens(line: Option<Line>): seq<string> {
    match line
    case None => []
    case Some(l) => l.comments.before + l.comments.suffix
  }

  /** The entries as written of comments none of which is a prefix of the
      marker are all the marker itself. */
  lemma AsWrittenEntriesAreMarkers(tokens: seq<string>)
    ensures (forall k :: 0 <= k < |tokens| ==> !HasPrefix(Marker, tokens[k])) ==>
              seq(|tokens|, i requires 0 <= i < |tokens| => NoteEntryAsWritten(tokens[i]))
              == seq(|tokens|, i requires 0 <= i < |tokens| => Marker)
  {
    if forall k :: 0 <= k < |tokens| ==> !HasPrefix(Marker, tokens[k]) {
      forall k | 0 <= k < |tokens| ensures NoteEntryAsWritten(tokens[k]) == Marker {
        AsWrittenEntryIsMarker(tokens[k]);
      }
    }
  }

  /** parseNotes exactly as the source computes it: no statement means no
      notes, and real comments (none a prefix of `//`) give `//` once per comment. */
  function ParseNotesAsWritten(line: Option<Line>): (r: string)
    ensures line.None? ==> r == ""
    ensures var tokens := CommentTokens(line);
            (forall k :: 0 <= k < |tokens| ==> !HasPrefix(Marker, tokens[k])) ==>
              r == Join(seq(|tokens|, i requires 0 <= i < |tokens| => Marker), " ")
  {
    var tokens := CommentTokens(line);
    AsWrittenEntriesAreMarkers(tokens);
    Join(seq(|tokens|, i requires 0 <= i < |tokens| => NoteEntryAsWritten(tokens[i])), " ")
  }

  /** parseNotes as intended: one entry per comment, leading comments first,
      joined by single spaces; no statement means no notes. */
  function ParseNotes(line: Option<Line>): (r: string)
    ensures line.None? ==> r == ""
  {
    var tokens := CommentTokens(line);
    Join(seq(|tokens|, i requires 0 <= i < |tokens| => NoteEntry(tokens[i])), " ")
  }

  /** The notes of a statement with a single comment are that comment's entry. */
  lemma SingleCommentNotes(l: Line, t: string)
    requires CommentTokens(Some(l)) == [t]
    ensures ParseNotesAsWritten(Some(l)) == NoteEntryAsWritten(t)
    ensures ParseNotes(Some(l)) == NoteEntry(t)
  {
    var tokens := [t];
    var asWritten := seq(|tokens|, i requires 0 <= i < |tokens| => NoteEntryAsWritten(tokens[i]));
    assert asWritten == [NoteEntryAsWritten(t)];
    var intended := seq(|tokens|, i requires 0 <= i < |tokens| => NoteEntry(tokens[i]));
    assert intended == [NoteEntry(t)];
  }

  const Reviewed := "reviewed"

  /** A rule statement with the single leading comment `// reviewed`. */
  const ReviewedLine := Line(Comments([Marker + " " + Reviewed], []), Position(2, 1), ["trust", "m", "v1.0.0", "sig"])

  lemma ReviewedHasNoSpace()
    ensures forall k :: 0 <= k < |Reviewed| ==> !IsSpace(Reviewed[k])
  {
    forall k | 0 <= k < |Reviewed| ensures !IsSpace(Reviewed[k]) {
      assert 'a' <= Reviewed[k] <= 'z';
    }
  }

  /** Concrete input on which the source loses the note text: a rule with the
      single leading comment `// reviewed` gets the note `//` instead of `reviewed`. */
  lemma NotesAsWrittenLoseText()
    ensures ParseNotesAsWritten(Some(ReviewedLine)) == Marker
    ensures ParseNotes(Some(ReviewedLine)) == Reviewed
  {
    var t := Marker + " " + Reviewed;
    assert CommentTokens(Some(ReviewedLine)) == [t];
    SingleCommentNotes(ReviewedLine, t);
    AsWrittenEntryIsMarker(t);
    ReviewedHasNoSpace();
    NoteEntryStripsMarker(Reviewed);
  }

  /** With the intended entries, the notes of a statement whose comments are
      `// word` split back at spaces into those words: one per comment, leading
      comments first, nothing lost or reordered. */
  lemma NotesListComments(line: Line, words: seq<string>)
    requires |words| > 0
    requires forall i :: 0 <= i < |words| ==> forall k :: 0 <= k < |words[i]| ==> !IsSpace(words[i][k])
    requires line.comments.before + line.comments.suffix == seq(|words|, i requires 0 <= i < |words| => Marker + " " + words[i])
    ensures Split(ParseNotes(Some(line)), ' ') == words
  {
    var tokens := CommentTokens(Some(line));
    var entries := seq(|tokens|, i requires 0 <= i < |tokens| => NoteEntry(tokens[i]));
    forall i | 0 <= i < |words| ensures entries[i] == words[i] {
      assert tokens[i] == Marker + " " + words[i];
      NoteEntryStripsMarker(words[i]);
    }
    forall i | 0 <= i < |words| ensures ' ' !in words[i] {
      forall k | 0 <= k < |words[i]| ensures words[i][k] != ' ' {
        assert !IsSpace(words[i][k]);
      }
    }
    assert entries == words;
    SplitJoin(words, ' ');
  }
}
