/**
 What text with references in it is read as by `native/mars/comm/tinyxml2.cc`:
 entities, numeric references, and ampersands that start no reference.
 */
module XmlReferences {

  import opened Options
  import opened Sequences
  import opened Strings
  import opened XmlText
  import opened XmlDocuments
  import opened XmlLexical

  datatype Piece =
    | Run(text: string)
    | LineEnd(end: string)
    | Entity(c: char)
    | Code(pre: string, digits: string, hex: bool)
    | Ampersand

  function PieceText(p: Piece): string {
    match p
    case Run(text) => text
    case LineEnd(end) => end
    case Entity(c) =>
      if c == '"' then "&quot;"
      else if c == '\'' then "&apos;"
      else if c == '<' then "&lt;"
      else if c == '>' then "&gt;"
      else "&amp;"
    case Code(pre, digits, _) => "&#" + (pre + (digits + ";"))
    case Ampersand => "&"
  }

  /** A piece with the given text behind it: nothing behind a line end makes another one of it. */
  ghost predicate WellPiece(p: Piece, rest: string) {
    match p
    case Run(text) => '&' !in text && CR !in text && (LF !in text || rest == "" || rest[0] != CR)
    case LineEnd(end) => IsLineEnd(end) && (|end| == 1 && rest != "" && rest[0] in [CR, LF] ==> rest[0] == end[0])
    case Entity(c) => c == '"' || c == '\'' || c == '<' || c == '>' || c == '&'
    case Code(pre, digits, hex) => SplitReference(pre, digits, hex) && AllDigits(digits, hex)
    case Ampersand => rest != "" && rest[0] == '#' && (rest == "#" || NoReference(rest[1..]))
  }

  /** Behind "&#": no semicolon at all, or something other than digits in front of the first. */
  ghost predicate NoReference(s: string) {
    || ';' !in s
    || exists pre, tail, hex :: SplitReference(pre, tail, hex) && !AllDigits(tail, hex) && pre + (tail + ";") <= s
  }

  function PieceMeaning(p: Piece, rest: string): string
    requires p.Code? ==> AllDigits(p.digits, p.hex)
  {
    match p
    case Run(text) => text
    case LineEnd(_) => [LF]
    case Entity(c) => [c]
    case Code(_, digits, hex) => Chars(CodeBytes(WrappedSum(digits, hex, 1)))
    case Ampersand => if rest == "#" then "" else "&"
  }

  function PiecesText(ps: seq<Piece>): string {
    if ps == [] then "" else PieceText(ps[0]) + PiecesText(ps[1..])
  }

  ghost predicate WellPieces(ps: seq<Piece>) {
    ps == [] || (WellPiece(ps[0], PiecesText(ps[1..])) && WellPieces(ps[1..]))
  }

  ghost function PiecesMeaning(ps: seq<Piece>): string
    requires WellPieces(ps)
  {
    if ps == [] then "" else PieceMeaning(ps[0], PiecesText(ps[1..])) + PiecesMeaning(ps[1..])
  }

  lemma PieceUnit(p: Piece, rest: string, stale: char)
    requires !p.Run? && WellPiece(p, rest)
    ensures Unit(TEXT, PieceText(p) + rest, stale) == (|PieceText(p)|, PieceMeaning(p, rest))
  {
    hide Unit, CharRef, SplitReference, AllDigits, WrappedSum, Chars, CodeBytes, NoReference;
    match p {
      case LineEnd(end) =>
        LineEndUnit(TEXT, end, rest, stale);
      case Entity(_) =>
        PredefinedEntities(rest, stale);
      case Code(pre, digits, hex) =>
        NumericReference(pre, digits, hex, rest);
        UnitAmpersand(TEXT, PieceText(p) + rest, stale);
      case Ampersand =>
        KeptAmpersand(rest);
        UnitAmpersand(TEXT, "&" + rest, stale);
    }
  }

  lemma KeptAmpersand(rest: string)
    requires WellPiece(Ampersand, rest)
    ensures CharRef("&" + rest) == if rest == "#" then Ref(1, "") else Literal
  {
    hide CharRef, SplitReference, AllDigits, WrappedSum, Chars, CodeBytes;
    var s := rest[1..];
    assert "&" + rest == "&#" + s;
    if ';' !in s {
      UnendedReference(s);
    } else {
      var pre, tail, hex :| SplitReference(pre, tail, hex) && !AllDigits(tail, hex) && pre + (tail + ";") <= s;
      var text := pre + (tail + ";");
      NumericReference(pre, tail, hex, s[|text|..]);
      assert s == text + s[|text|..];
      Reassociate("&#", text, s[|text|..]);
    }
  }

  lemma PiecesNext(ps: seq<Piece>)
    requires WellPieces(ps) && ps != []
    ensures WellPiece(ps[0], PiecesText(ps[1..])) && WellPieces(ps[1..])
    ensures PiecesMeaning(ps) == PieceMeaning(ps[0], PiecesText(ps[1..])) + PiecesMeaning(ps[1..])
  {
  }

  lemma {:induction false} DecodePieces(ps: seq<Piece>, pre: string, out: string)
    requires WellPieces(ps) && |out| <= |pre|
    ensures Decode(TEXT, pre + PiecesText(ps), |pre|, out) == out + PiecesMeaning(ps)
    decreases |ps|
  {
    hide Decode, Unit, PieceText, PieceMeaning, WellPieces, PiecesMeaning, NoReference;
    if ps == [] {
      NoPieces();
      DecodeEnds(TEXT, pre, out);
    } else {
      var e, more := PieceText(ps[0]), PiecesText(ps[1..]);
      PiecesNext(ps);
      var meant := PieceMeaning(ps[0], more);
      if ps[0].Run? {
        RunMeansItself(ps[0].text, more);
        DecodePlain(e, TEXT, pre, out, more);
      } else {
        NotEmpty(ps[0], more);
        PieceUnit(ps[0], more, (pre + (e + more))[|out|]);
        DecodeUnit(TEXT, pre, e, more, out, meant);
      }
      DecodePieces(ps[1..], pre + e, out + meant);
      Reassociate(out, meant, PiecesMeaning(ps[1..]));
    }
  }

  lemma NotEmpty(p: Piece, rest: string)
    requires !p.Run? && WellPiece(p, rest)
    ensures PieceText(p) != ""
  {
  }

  lemma RunMeansItself(text: string, rest: string)
    ensures PieceText(Run(text)) == text == PieceMeaning(Run(text), rest)
  {
  }

  lemma NoPieces()
    ensures WellPieces([]) && PiecesMeaning([]) == ""
  {
  }

  /**
   Text of any such pieces is read as what they mean, up to the first NUL a
   reference denotes.
   */
  lemma TextMeans(ps: seq<Piece>)
    requires WellPieces(ps)
    ensures Value(TEXT, PiecesText(ps)) == CStringAt(PiecesMeaning(ps), 0)
  {
    hide Decode, PiecesText, PiecesMeaning, WellPieces;
    var t := PiecesText(ps);
    DecodePieces(ps, "", "");
    assert "" + t == t && "" + PiecesMeaning(ps) == PiecesMeaning(ps);
  }
}
