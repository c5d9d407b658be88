/** `escaped_list_separator` of `native/mars/boost/token_functions.hpp`. */
module EscapedLists {

  import opened Options
  import opened Sequences

  /** The three character classes; escape is looked at first, then separator, then quote. */
  datatype Dialect = Dialect(escape: string, separator: string, quote: string)

  /** `do_escape`, after the escape character. */
  function Unescaped(d: Dialect, c: char): Option<char> {
    if c == 'n' then Some('\n')
    else if c in d.quote || c in d.separator || c in d.escape then Some(c)
    else None
  }

  /** The rest of one field: an error, or the field, what follows, and whether a separator ended it. */
  datatype Scanned = Error | Field(tok: string, rest: string, last: bool)

  function Scan(d: Dialect, t: string, inQuote: bool, tok: string): (r: Scanned)
    ensures r.Field? ==> |r.rest| <= |t| && (r.last ==> |r.rest| < |t|) && (!r.last ==> r.rest == "")
    decreases |t|
  {
    if t == "" then Field(tok, "", false)
    else if t[0] in d.escape then
      if |t| == 1 then Error else
      match Unescaped(d, t[1])
      case None => Error
      case Some(c) => Scan(d, t[2..], inQuote, tok + [c])
    else if t[0] in d.separator then
      if inQuote then Scan(d, t[1..], inQuote, tok + [t[0]]) else Field(tok, t[1..], true)
    else if t[0] in d.quote then Scan(d, t[1..], !inQuote, tok)
    else Scan(d, t[1..], inQuote, tok + [t[0]])
  }

  /** One call. */
  datatype Call = NoMore | Failed | Token(tok: string, rest: string, last: bool)

  function OneCall(d: Dialect, t: string, last: bool): Call {
    if t == "" then (if last then Token("", "", false) else NoMore) else
    match Scan(d, t, false, "")
    case Error => Failed
    case Field(tok, rest, after) => Token(tok, rest, after)
  }

  /** All calls; None if one throws. */
  function Parse(d: Dialect, t: string, last: bool): Option<seq<string>>
    decreases |t|, last
  {
    match OneCall(d, t, last)
    case NoMore => Some([])
    case Failed => None
    case Token(tok, rest, after) =>
      match Parse(d, rest, after)
      case None => None
      case Some(ts) => Some([tok] + ts)
  }

  class EscapedListSeparator {
    const dialect: Dialect
    var last: bool

    constructor (dialect: Dialect)
      ensures this.dialect == dialect && !last
    {
      this.dialect, last := dialect, false;
    }

    /** One call over s from the given index; a failure is the exception of the original. */
    method Next(s: string, from: nat) returns (r: Call, next: nat)
      requires from <= |s|
      modifies this
      ensures r == OneCall(dialect, s[from..], old(last))
      ensures from <= next <= |s| && (r.Token? ==> s[next..] == r.rest && last == r.last)
    {
      var inQuote, tok := false, "";
      next := from;
      if next == |s| {
        if last {
          last := false;
          return Token("", "", false), next;
        }
        return NoMore, next;
      }
      last := false;
      while next < |s|
        invariant from <= next <= |s| && !last
        invariant Scan(dialect, s[next..], inQuote, tok) == Scan(dialect, s[from..], false, "")
      {
        var c := s[next];
        assert s[next..][1..] == s[next + 1..];
        if c in dialect.escape {
          next := next + 1;
          if next == |s| {
            return Failed, next;
          }
          assert s[next - 1..][2..] == s[next + 1..] && s[next - 1..][1] == s[next];
          var u := Unescaped(dialect, s[next]);
          if u == None {
            return Failed, next;
          }
          tok := tok + [u.value];
        } else if c in dialect.separator {
          if !inQuote {
            last := true;
            return Token(tok, s[next + 1..], true), next + 1;
          }
          tok := tok + [c];
        } else if c in dialect.quote {
          inQuote := !inQuote;
        } else {
          tok := tok + [c];
        }
        next := next + 1;
      }
      assert s[next..] == "";
      return Token(tok, "", false), next;
    }
  }

  // ----- how a list is written -----

  /** A character for itself, one behind an escape character, or a quote, which only starts or ends quoting. */
  datatype Piece = Bare(c: char) | Escaped(escape: char, c: char) | Toggle(quote: char)

  function PieceText(p: Piece): string {
    match p
    case Bare(c) => [c]
    case Escaped(e, c) => [e, c]
    case Toggle(q) => [q]
  }

  function PieceMeant(p: Piece): string {
    match p
    case Bare(c) => [c]
    case Escaped(_, c) => if c == 'n' then "\n" else [c]
    case Toggle(_) => ""
  }

  /** Behind an escape character only these may stand. */
  predicate CanEscape(d: Dialect, c: char) { c == 'n' || c in d.quote || c in d.separator || c in d.escape }

  /** In quotes a separator stands for itself. */
  predicate WellPiece(d: Dialect, p: Piece, inQuote: bool) {
    match p
    case Bare(c) => c !in d.escape && if c in d.separator then inQuote else c !in d.quote
    case Escaped(e, c) => e in d.escape && CanEscape(d, c)
    case Toggle(q) => q in d.quote && q !in d.escape && q !in d.separator
  }

  function After(p: Piece, inQuote: bool): bool { if p.Toggle? then !inQuote else inQuote }

  function FieldText(ps: seq<Piece>): string {
    if ps == [] then "" else PieceText(ps[0]) + FieldText(ps[1..])
  }

  function FieldMeant(ps: seq<Piece>): string {
    if ps == [] then "" else PieceMeant(ps[0]) + FieldMeant(ps[1..])
  }

  predicate WellField(d: Dialect, ps: seq<Piece>, inQuote: bool)
    decreases |ps|
  {
    ps == [] || (WellPiece(d, ps[0], inQuote) && WellField(d, ps[1..], After(ps[0], inQuote)))
  }

  /** Whether the field ends in quotes. */
  function AfterAll(ps: seq<Piece>, inQuote: bool): bool
    decreases |ps|
  {
    if ps == [] then inQuote else AfterAll(ps[1..], After(ps[0], inQuote))
  }

  predicate IsSeparator(d: Dialect, c: char) { c in d.separator && c !in d.escape }

  /** Fields with separators between them; only the last may end in quotes. */
  predicate WellList(d: Dialect, fields: seq<seq<Piece>>, separators: string) {
    && |fields| == |separators| + 1
    && (forall i :: 0 <= i < |fields| ==> WellField(d, fields[i], false))
    && (forall i :: 0 <= i < |separators| ==> IsSeparator(d, separators[i]) && !AfterAll(fields[i], false))
  }

  function ListText(fields: seq<seq<Piece>>, separators: string): string
    requires |fields| == |separators| + 1
  {
    FieldText(fields[0]) + if separators == "" then "" else [separators[0]] + ListText(fields[1..], separators[1..])
  }

  function ListMeant(fields: seq<seq<Piece>>): seq<string> {
    if fields == [] then [] else [FieldMeant(fields[0])] + ListMeant(fields[1..])
  }

  // ----- reading it back -----

  lemma ScanPiece(d: Dialect, p: Piece, inQuote: bool, rest: string, tok: string)
    requires WellPiece(d, p, inQuote)
    ensures Scan(d, PieceText(p) + rest, inQuote, tok) == Scan(d, rest, After(p, inQuote), tok + PieceMeant(p))
  {
    var t := PieceText(p) + rest;
    match p {
      case Bare(c) => assert t[1..] == rest;
      case Escaped(e, c) => assert t[2..] == rest;
      case Toggle(q) => assert t[1..] == rest && tok + "" == tok;
    }
  }

  /** A written field is scanned as what it means. */
  lemma {:induction false} ScanWritten(d: Dialect, ps: seq<Piece>, inQuote: bool, rest: string, tok: string)
    requires WellField(d, ps, inQuote)
    ensures Scan(d, FieldText(ps) + rest, inQuote, tok) == Scan(d, rest, AfterAll(ps, inQuote), tok + FieldMeant(ps))
    decreases |ps|
  {
    hide Scan, PieceText, PieceMeant, WellPiece;
    if ps == [] {
      assert "" + rest == rest && tok + "" == tok;
    } else {
      Reassociate(PieceText(ps[0]), FieldText(ps[1..]), rest);
      ScanPiece(d, ps[0], inQuote, FieldText(ps[1..]) + rest, tok);
      ScanWritten(d, ps[1..], After(ps[0], inQuote), rest, tok + PieceMeant(ps[0]));
      Reassociate(tok, PieceMeant(ps[0]), FieldMeant(ps[1..]));
    }
  }

  lemma ScanEnds(d: Dialect, c: char, inQuote: bool, rest: string, tok: string)
    ensures Scan(d, "", inQuote, tok) == Field(tok, "", false)
    ensures IsSeparator(d, c) ==> Scan(d, [c] + rest, false, tok) == Field(tok, rest, true)
  {
    assert ([c] + rest)[1..] == rest;
  }

  lemma NoFields(d: Dialect)
    ensures Parse(d, "", false) == Some([]) && ListMeant([]) == []
  {
  }

  /** One field more, and then the rest. */
  lemma FirstField(d: Dialect, ps: seq<Piece>, c: char, rest: string, last: bool)
    requires WellField(d, ps, false) && !AfterAll(ps, false) && IsSeparator(d, c)
    ensures var r := Parse(d, rest, true);
            Parse(d, FieldText(ps) + ([c] + rest), last) == if r == None then None else Some([FieldMeant(ps)] + r.value)
  {
    hide Scan, WellField;
    ScanWritten(d, ps, false, [c] + rest, "");
    ScanEnds(d, c, false, rest, "" + FieldMeant(ps));
    assert "" + FieldMeant(ps) == FieldMeant(ps);
    assert FieldText(ps) + ([c] + rest) != "";
  }

  lemma LastField(d: Dialect, ps: seq<Piece>, last: bool)
    requires WellField(d, ps, false) && (last || FieldText(ps) != "")
    ensures Parse(d, FieldText(ps), last) == Some([FieldMeant(ps)])
  {
    hide Scan, WellField;
    var f := FieldMeant(ps);
    NoFields(d);
    assert [f] + [] == [f];
    if FieldText(ps) == "" {
      NoPieces(ps);
    } else {
      assert FieldText(ps) + "" == FieldText(ps) && "" + f == f;
      ScanWritten(d, ps, false, "", "");
      ScanEnds(d, ' ', AfterAll(ps, false), "", f);
    }
  }

  lemma NoPieces(ps: seq<Piece>)
    ensures FieldText(ps) == "" <==> ps == []
    ensures ps == [] ==> FieldMeant(ps) == ""
  {
    if ps != [] {
      assert PieceText(ps[0]) != "";
    }
  }

  /** The whole list, after a separator or at the start of a text that is not empty. */
  lemma {:induction false} ListRead(d: Dialect, fields: seq<seq<Piece>>, separators: string, last: bool)
    requires WellList(d, fields, separators) && (last || ListText(fields, separators) != "")
    ensures Parse(d, ListText(fields, separators), last) == Some(ListMeant(fields))
    decreases |fields|
  {
    hide Parse, FieldText, FieldMeant, WellField, IsSeparator;
    if separators == "" {
      assert FieldText(fields[0]) + "" == FieldText(fields[0]);
      LastField(d, fields[0], last);
      NoFields(d);
      assert fields[1..] == [] && [FieldMeant(fields[0])] + [] == [FieldMeant(fields[0])];
    } else {
      assert IsSeparator(d, separators[0]);
      FirstField(d, fields[0], separators[0], ListText(fields[1..], separators[1..]), last);
      ListRead(d, fields[1..], separators[1..], true);
    }
  }

  /** Reading a written list gives the list exactly if it is not one field of which nothing is written. */
  lemma ListRoundTrip(d: Dialect, fields: seq<seq<Piece>>, separators: string)
    requires WellList(d, fields, separators)
    ensures Parse(d, ListText(fields, separators), false) == Some(ListMeant(fields)) <==> fields != [[]]
  {
    hide FieldText, FieldMeant, WellField;
    NoFields(d);
    NoPieces(fields[0]);
    if fields != [[]] {
      if separators == "" {
        assert fields == [fields[0]];
        assert FieldText(fields[0]) + "" == FieldText(fields[0]);
      }
      ListRead(d, fields, separators, false);
    }
  }

  // ----- every field can be written -----

  /** A dialect in which 'n' is ordinary. */
  predicate Usable(d: Dialect) { d.escape != "" && 'n' !in d.escape && 'n' !in d.separator && 'n' !in d.quote }

  function Write(d: Dialect, f: string): seq<Piece>
    requires Usable(d)
  {
    if f == "" then [] else
      [if f[0] == '\n' then Escaped(d.escape[0], 'n')
       else if f[0] in d.escape || f[0] in d.separator || f[0] in d.quote then Escaped(d.escape[0], f[0])
       else Bare(f[0])] + Write(d, f[1..])
  }

  /** Every field, whatever its characters, can be written, and is read back. */
  lemma {:induction false} EveryFieldWritten(d: Dialect, f: string)
    requires Usable(d)
    ensures WellField(d, Write(d, f), false) && !AfterAll(Write(d, f), false) && FieldMeant(Write(d, f)) == f
    decreases |f|
  {
    if f != "" {
      EveryFieldWritten(d, f[1..]);
      var ps := Write(d, f);
      assert ps[1..] == Write(d, f[1..]);
      assert PieceMeant(ps[0]) == [f[0]];
    }
  }

  // ----- what is refused -----

  /** An escape character with nothing behind it, or something that cannot be escaped. */
  predicate BadEscape(d: Dialect, t: string) {
    t != "" && t[0] in d.escape && (|t| == 1 || !CanEscape(d, t[1]))
  }

  lemma BadEscapeStops(d: Dialect, ps: seq<Piece>, t: string, last: bool)
    requires WellField(d, ps, false) && BadEscape(d, t)
    ensures Parse(d, FieldText(ps) + t, last) == None
  {
    ScanWritten(d, ps, false, t, "");
    assert Scan(d, t, AfterAll(ps, false), "" + FieldMeant(ps)) == Error;
    hide Scan, WellField;
    assert FieldText(ps) + t != "";
  }

  lemma {:induction false} BrokenListRefused(d: Dialect, fields: seq<seq<Piece>>, separators: string, t: string,
                                             last: bool)
    requires WellList(d, fields, separators) && BadEscape(d, t)
    ensures Parse(d, ListText(fields, separators) + t, last) == None
    decreases |fields|
  {
    hide Parse, FieldText, FieldMeant, WellField, IsSeparator, BadEscape;
    if separators == "" {
      assert FieldText(fields[0]) + "" == FieldText(fields[0]);
      BadEscapeStops(d, fields[0], t, last);
    } else {
      var c, more := separators[0], ListText(fields[1..], separators[1..]);
      assert IsSeparator(d, c);
      Reassociate([c], more, t);
      Reassociate(FieldText(fields[0]), [c] + more, t);
      FirstField(d, fields[0], c, more + t, last);
      BrokenListRefused(d, fields[1..], separators[1..], t, true);
    }
  }

  /** The piece at the head of a text. */
  function PieceAt(d: Dialect, t: string): Piece
    requires t != "" && !BadEscape(d, t)
  {
    if t[0] in d.escape then Escaped(t[0], t[1])
    else if t[0] in d.quote && t[0] !in d.separator then Toggle(t[0])
    else Bare(t[0])
  }

  lemma PieceIsWell(d: Dialect, t: string, inQuote: bool)
    requires t != "" && !BadEscape(d, t) && (inQuote || !IsSeparator(d, t[0]))
    ensures var p := PieceAt(d, t);
            WellPiece(d, p, inQuote) && 0 < |PieceText(p)| <= |t| && t == PieceText(p) + t[|PieceText(p)|..]
  {
  }

  /** Any text is a written field up to its end, a separator, or a bad escape. */
  lemma {:induction false} FieldOf(d: Dialect, t: string, inQuote: bool) returns (ps: seq<Piece>, rest: string)
    ensures t == FieldText(ps) + rest && WellField(d, ps, inQuote) && |rest| <= |t|
    ensures rest == "" || BadEscape(d, rest) || (!AfterAll(ps, inQuote) && IsSeparator(d, rest[0]))
    decreases |t|
  {
    hide PieceText, WellPiece, BadEscape, IsSeparator, PieceAt;
    if t != "" && !BadEscape(d, t) && (inQuote || !IsSeparator(d, t[0])) {
      var p := PieceAt(d, t);
      PieceIsWell(d, t, inQuote);
      var more;
      more, rest := FieldOf(d, t[|PieceText(p)|..], After(p, inQuote));
      ps := [p] + more;
      assert ps[1..] == more;
      Reassociate(PieceText(p), FieldText(more), rest);
    } else {
      ps, rest := [], t;
      assert "" + t == t;
    }
  }

  /** If reading throws, the text is a written list up to a bad escape. */
  lemma {:induction false} BreaksOff(d: Dialect, t: string, last: bool)
    returns (fields: seq<seq<Piece>>, separators: string, rest: string)
    requires Parse(d, t, last) == None
    ensures WellList(d, fields, separators) && BadEscape(d, rest) && t == ListText(fields, separators) + rest
    decreases |t|
  {
    hide Parse, FieldText, FieldMeant, WellField, IsSeparator, BadEscape;
    var ps;
    ps, rest := FieldOf(d, t, false);
    fields, separators := [ps], "";
    assert FieldText(ps) + "" == FieldText(ps);
    if rest == "" {
      WholeIsRead(d, ps, last);
    } else if !BadEscape(d, rest) {
      var c, more := rest[0], rest[1..];
      assert rest == [c] + more && |more| < |t|;
      FirstField(d, ps, c, more, last);
      fields, separators, rest := BreaksOff(d, more, true);
      Reassociate([c], ListText(fields, separators), rest);
      Reassociate(FieldText(ps), [c] + ListText(fields, separators), rest);
      OneFieldMore(d, ps, c, fields, separators);
      fields, separators := [ps] + fields, [c] + separators;
    }
  }

  lemma WholeIsRead(d: Dialect, ps: seq<Piece>, last: bool)
    requires WellField(d, ps, false)
    ensures Parse(d, FieldText(ps), last) != None
  {
    hide WellField, Scan, FieldText;
    NoFields(d);
    if last || FieldText(ps) != "" {
      LastField(d, ps, last);
    }
  }

  lemma OneFieldMore(d: Dialect, ps: seq<Piece>, c: char, fields: seq<seq<Piece>>, separators: string)
    requires WellField(d, ps, false) && !AfterAll(ps, false) && IsSeparator(d, c) && WellList(d, fields, separators)
    ensures WellList(d, [ps] + fields, [c] + separators)
    ensures ListText([ps] + fields, [c] + separators) == FieldText(ps) + ([c] + ListText(fields, separators))
  {
    hide WellField, FieldText, IsSeparator, AfterAll;
    assert ([ps] + fields)[1..] == fields && ([c] + separators)[1..] == separators;
    assert forall i :: 0 < i < |fields| + 1 ==> ([ps] + fields)[i] == fields[i - 1];
    assert forall i :: 0 < i < |separators| + 1 ==> ([c] + separators)[i] == separators[i - 1];
  }

  /** A written list up to a bad escape. */
  ghost predicate IsBroken(d: Dialect, t: string) {
    exists fields, separators, rest ::
      WellList(d, fields, separators) && BadEscape(d, rest) && t == ListText(fields, separators) + rest
  }

  /** Reading throws exactly if an escape character is met with nothing or something wrong behind it. */
  lemma FailsExactly(d: Dialect, t: string)
    ensures Parse(d, t, false) == None <==> IsBroken(d, t)
  {
    hide Parse, ListText, WellField, BadEscape;
    if Parse(d, t, false) == None {
      var fields, separators, rest := BreaksOff(d, t, false);
    } else if IsBroken(d, t) {
      var fields, separators, rest :|
        WellList(d, fields, separators) && BadEscape(d, rest) && t == ListText(fields, separators) + rest;
      BrokenListRefused(d, fields, separators, rest, false);
    }
  }
}
