/** What the tokenizer of src/extern/jsmn.c takes for one lexeme. A C string has no NUL inside. */
module JsonScan {
  datatype Kind = Primitive | Object | Array | String

  datatype Code = Success | NoMem | Inval | Part

  datatype Scan = Found(end: nat) | Fault(code: Code)

  datatype Lexeme =
    | Open(kind: Kind, at: nat)
    | Close(kind: Kind, at: nat)
    | Word(kind: Kind, start: nat, end: nat)
    | Blank

  datatype Reading = Took(lexeme: Lexeme, next: nat) | Stopped(code: Code)

  predicate Escapable(c: char) {
    c in "\"/\\bfrntu"
  }

  predicate IsBlank(c: char) {
    c in "\t\r\n:, "
  }

  predicate EndsPrimitive(c: char) {
    c in ":\t\r\n ,]}"
  }

  predicate Printable(c: char) {
    ' ' <= c < 127 as char
  }

  /** From inside a string to its closing quote. */
  function ScanString(js: string, i: nat): (s: Scan)
    requires i <= |js|
    ensures s.Found? ==> i <= s.end < |js|
    ensures s.Fault? ==> s.code == Part || s.code == Inval
    decreases |js| - i
  {
    if i == |js| then Fault(Part)
    else if js[i] == '"' then Found(i)
    else if js[i] == '\\' then
      if i + 1 < |js| && Escapable(js[i + 1]) then ScanString(js, i + 2) else Fault(Inval)
    else ScanString(js, i + 1)
  }

  /** From inside a primitive to the first character that ends it. */
  function ScanPrimitive(js: string, i: nat): (s: Scan)
    requires i <= |js|
    ensures s.Found? ==> i <= s.end <= |js| && (i < |js| && !EndsPrimitive(js[i]) ==> i < s.end)
    ensures s.Fault? ==> s.code == Inval
    decreases |js| - i
  {
    if i == |js| || EndsPrimitive(js[i]) then Found(i)
    else if !Printable(js[i]) then Fault(Inval)
    else ScanPrimitive(js, i + 1)
  }

  function Next(js: string, pos: nat): (r: Reading)
    requires pos < |js|
    ensures r.Took? ==> pos < r.next <= |js|
    ensures r.Stopped? ==> r.code == Part || r.code == Inval
  {
    var c := js[pos];
    if c == '{' then Took(Open(Object, pos), pos + 1)
    else if c == '[' then Took(Open(Array, pos), pos + 1)
    else if c == '}' then Took(Close(Object, pos), pos + 1)
    else if c == ']' then Took(Close(Array, pos), pos + 1)
    else if c == '"' then
      match ScanString(js, pos + 1)
      case Found(end) => Took(Word(String, pos + 1, end), end + 1)
      case Fault(code) => Stopped(code)
    else if IsBlank(c) then Took(Blank, pos + 1)
    else
      match ScanPrimitive(js, pos)
      case Found(end) => Took(Word(Primitive, pos, end), end)
      case Fault(code) => Stopped(code)
  }

  /** All lexemes from `pos` on, blanks left out, up to the first lexical error. */
  datatype Lexemes = Lexemes(code: Code, seen: seq<Lexeme>)

  function Lex(js: string, pos: nat): (l: Lexemes)
    requires pos <= |js|
    decreases |js| - pos
  {
    if pos == |js| then Lexemes(Success, [])
    else
      match Next(js, pos)
      case Stopped(code) => Lexemes(code, [])
      case Took(lexeme, next) =>
        var l := Lex(js, next);
        if lexeme.Blank? then l else l.(seen := [lexeme] + l.seen)
  }

  // ---------------------------------------------------------------- what a string may hold

  /** Every backslash starts a known escape, and every quote is escaped. */
  predicate Quotable(s: string) {
    s == [] ||
    if s[0] == '\\' then |s| > 1 && Escapable(s[1]) && Quotable(s[2..])
    else s[0] != '"' && Quotable(s[1..])
  }

  lemma {:induction false} QuotableIsScanned(js: string, i: nat, s: string)
    requires i + |s| < |js| && js[i..i + |s|] == s && js[i + |s|] == '"' && Quotable(s)
    ensures ScanString(js, i) == Found(i + |s|)
    decreases |s|
  {
    if s != [] {
      assert s[0] == js[i];
      if s[0] == '\\' {
        assert s[1] == js[i + 1];
        assert js[i + 2..i + 2 + |s[2..]|] == s[2..];
        QuotableIsScanned(js, i + 2, s[2..]);
      } else {
        assert js[i + 1..i + 1 + |s[1..]|] == s[1..];
        QuotableIsScanned(js, i + 1, s[1..]);
      }
    }
  }

  lemma {:induction false} ScannedIsQuotable(js: string, i: nat)
    requires i <= |js| && ScanString(js, i).Found?
    ensures js[ScanString(js, i).end] == '"' && Quotable(js[i..ScanString(js, i).end])
    decreases |js| - i
  {
    var end := ScanString(js, i).end;
    if js[i] == '\\' {
      ScannedIsQuotable(js, i + 2);
      assert js[i..end][2..] == js[i + 2..end];
    } else if js[i] != '"' {
      ScannedIsQuotable(js, i + 1);
      assert js[i..end][1..] == js[i + 1..end];
    }
  }

  /** The scanner closes a string exactly where the text up to a quote is quotable. */
  lemma ScanFindsClosingQuote(js: string, i: nat, end: nat)
    requires i <= end < |js|
    ensures ScanString(js, i) == Found(end) <==> js[end] == '"' && Quotable(js[i..end])
  {
    if ScanString(js, i) == Found(end) {
      ScannedIsQuotable(js, i);
    }
    if js[end] == '"' && Quotable(js[i..end]) {
      QuotableIsScanned(js, i, js[i..end]);
    }
  }
}
