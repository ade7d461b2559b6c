/** `getInitials` of the user library: the avatar fallback built from a
    display name. */
module UserNames {

  import opened Wrappers
  import opened Seqs
  import opened Text

  /** `word[0]` as `join('')` prints it: an empty word has no first
      character and prints as nothing. */
  function FirstChar(word: string): (r: string)
    ensures |r| <= 1
    ensures word != [] ==> r == [word[0]]
  {
    if word == [] then [] else [word[0]]
  }

  /** At most the first two pieces (`slice(0, 2)`). */
  function FirstTwo(pieces: seq<string>): (r: seq<string>)
    ensures |r| <= 2 && |r| <= |pieces| && r == pieces[..|r|]
    ensures |pieces| >= 2 ==> |r| == 2
    ensures |pieces| < 2 ==> r == pieces
  {
    if |pieces| <= 2 then pieces else pieces[..2]
  }

  /** Concatenating at most two pieces of at most one character each yields
      at most two characters. */
  lemma ConcatOfShortPieces(pieces: seq<string>)
    requires |pieces| <= 2
    requires forall k :: 0 <= k < |pieces| ==> |pieces[k]| <= 1
    ensures |Concat(pieces)| <= 2
    ensures |pieces| == 1 ==> Concat(pieces) == pieces[0]
    ensures |pieces| == 2 ==> Concat(pieces) == pieces[0] + pieces[1]
  {
    if |pieces| == 1 {
      assert Concat(pieces[1..]) == "";
    } else if |pieces| == 2 {
      assert Concat(pieces[1..][1..]) == "";
    }
  }

  /** The initials of a name: '?' for a missing or empty name, otherwise
      the upper-cased first characters of the first two space-separated
      pieces, so at most two characters. */
  function Initials(name: Option<string>): (r: string)
    ensures !Truthy(name) ==> r == "?"
    ensures |r| <= 2
  {
    if !Truthy(name) then "?"
    else
      var firstChars := Map(FirstTwo(Split(name.value, ' ')), FirstChar);
      ConcatOfShortPieces(firstChars);
      Upper(Concat(firstChars))
  }

  /** A name without a space yields one character: its first, upper-cased. */
  lemma SingleWordInitial(name: string)
    requires name != "" && ' ' !in name
    ensures Initials(Some(name)) == [ToUpper(name[0])]
  {
    SplitWithoutSeparator(name, ' ');
    var firstChars := Map(FirstTwo(Split(name, ' ')), FirstChar);
    assert firstChars == [[name[0]]];
    ConcatOfShortPieces(firstChars);
  }

  /** Two space-separated words yield both first characters, upper-cased,
      whatever follows the second word. */
  lemma TwoWordInitials(a: string, b: string)
    requires a != "" && ' ' !in a
    requires b != "" && b[0] != ' '
    ensures Initials(Some(a + " " + b)) == [ToUpper(a[0]), ToUpper(b[0])]
  {
    SplitAfterFirstPiece(a, ' ', b);
    var pieces := Split(a + " " + b, ' ');
    assert pieces[0] == a && pieces[1] == Split(b, ' ')[0];
    var firstChars := Map(FirstTwo(pieces), FirstChar);
    assert firstChars == [[a[0]], [b[0]]];
    ConcatOfShortPieces(firstChars);
  }

  /** Two spaces after the first word make the second piece empty: it
      contributes nothing, and the word after it is never read. */
  lemma EmptyPieceContributesNothing(a: string, b: string)
    requires a != "" && ' ' !in a
    ensures Initials(Some(a + "  " + b)) == [ToUpper(a[0])]
  {
    assert a + "  " + b == a + [' '] + ([' '] + b);
    SplitAfterFirstPiece(a, ' ', [' '] + b);
    SplitAfterFirstPiece([], ' ', b);
    assert [] + [' '] + b == [' '] + b;
    var pieces := Split(a + "  " + b, ' ');
    assert pieces[0] == a && pieces[1] == "";
    var firstChars := Map(FirstTwo(pieces), FirstChar);
    assert firstChars == [[a[0]], []];
    ConcatOfShortPieces(firstChars);
  }
}
