/** The tokenizer of src/extern/jsmn.c, filling a token array of fixed size in place. */
module Jsmn {
  import opened JsonScan
  import opened JsonForest
  import opened JsonParse

  const UNUSED := Token(Primitive, 0, 0, 0)

  class Parser {
    var pos: nat
    var toknext: nat
    var toksuper: int
    /** The forest read so far; the tokens in use are its layout. */
    ghost var zip: Zip

    constructor ()
      ensures pos == 0 && toknext == 0 && toksuper == -1 && zip == Top([])
    {
      pos, toknext, toksuper := 0, 0, -1;
      zip := Top([]);
    }

    ghost predicate Valid(js: string, tokens: array<Token>)
      reads this, tokens
    {
      && pos <= |js| && toknext <= tokens.Length && toknext <= pos
      && tokens[..toknext] == FlatZip(zip, 0)
      && toksuper == Super(zip)
    }

    method AllocToken(tokens: array<Token>) returns (ok: bool)
      requires toknext <= tokens.Length
      modifies this`toknext, tokens
      ensures ok <==> old(toknext) < tokens.Length
      ensures ok ==> toknext == old(toknext) + 1 && tokens[..old(toknext)] == old(tokens[..toknext])
      ensures ok ==> exists kind :: tokens[old(toknext)] == Token(kind, -1, -1, 0)
      ensures !ok ==> toknext == old(toknext) && tokens[..] == old(tokens[..])
    {
      if toknext >= tokens.Length {
        return false;
      }
      tokens[toknext] := tokens[toknext].(start := -1, end := -1, size := 0);
      toknext := toknext + 1;
      assert exists kind :: tokens[toknext - 1] == Token(kind, -1, -1, 0);
      ok := true;
    }

    /** What the two scanners leave behind: a filled token, or everything as it was. */
    twostate predicate Filled(tokens: array<Token>, ok: bool, t: Token)
      reads this, tokens
    {
      if ok then
        && toknext == old(toknext) + 1 <= tokens.Length && old(toknext) <= tokens.Length
        && tokens[..toknext] == old(tokens[..toknext]) + [t]
      else
        toknext == old(toknext) <= tokens.Length && tokens[..] == old(tokens[..])
    }

    method ParseString(js: string, tokens: array<Token>) returns (code: Code)
      requires pos < |js| && toknext <= tokens.Length
      modifies this`pos, this`toknext, tokens
      ensures match ScanString(js, old(pos) + 1)
              case Fault(fault) => code == fault && pos == old(pos) && Filled(tokens, false, UNUSED)
              case Found(end) =>
                if old(toknext) == tokens.Length
                then code == NoMem && pos == old(pos) && Filled(tokens, false, UNUSED)
                else code == Success && pos == end && Filled(tokens, true, Token(String, old(pos) + 1, end, 0))
    {
      var start := pos;
      pos := pos + 1;
      while pos < |js|
        invariant start < pos <= |js| && ScanString(js, pos) == ScanString(js, start + 1)
        invariant toknext == old(toknext) && tokens[..] == old(tokens[..])
        decreases |js| - pos
      {
        var c := js[pos];
        if c == '"' {
          var ok := AllocToken(tokens);
          if !ok {
            pos := start;
            return NoMem;
          }
          tokens[toknext - 1] := Token(String, start + 1, pos, 0);
          return Success;
        }
        if c == '\\' {
          pos := pos + 1;
          if pos == |js| || !Escapable(js[pos]) {
            pos := start;
            return Inval;
          }
        }
        pos := pos + 1;
      }
      pos := start;
      code := Part;
    }

    method ParsePrimitive(js: string, tokens: array<Token>) returns (code: Code)
      requires pos < |js| && !EndsPrimitive(js[pos]) && toknext <= tokens.Length
      modifies this`pos, this`toknext, tokens
      ensures match ScanPrimitive(js, old(pos))
              case Fault(fault) => code == fault && pos == old(pos) && Filled(tokens, false, UNUSED)
              case Found(end) =>
                if old(toknext) == tokens.Length
                then code == NoMem && pos == old(pos) && Filled(tokens, false, UNUSED)
                else code == Success && pos == end - 1 && Filled(tokens, true, Token(Primitive, old(pos), end, 0))
    {
      var start := pos;
      while pos < |js| && !EndsPrimitive(js[pos])
        invariant start <= pos <= |js| && ScanPrimitive(js, pos) == ScanPrimitive(js, start)
        invariant toknext == old(toknext) && tokens[..] == old(tokens[..])
        invariant pos == start ==> !EndsPrimitive(js[pos])
      {
        if !Printable(js[pos]) {
          pos := start;
          return Inval;
        }
        pos := pos + 1;
      }
      var ok := AllocToken(tokens);
      if !ok {
        pos := start;
        return NoMem;
      }
      tokens[toknext - 1] := Token(Primitive, start, pos, 0);
      pos := pos - 1;
      code := Success;
    }

    /** tokens[toksuper].size++, unless there is no superior token. */
    method CountChild(tokens: array<Token>)
      requires -1 <= toksuper < toknext <= tokens.Length
      modifies tokens
      ensures tokens[..toknext] == GrownAt(old(tokens[..toknext]), toksuper)
    {
      if toksuper != -1 {
        tokens[toksuper] := Grown(tokens[toksuper]);
      }
    }

    method OpenBranch(tokens: array<Token>, kind: Kind) returns (ok: bool)
      requires toknext <= tokens.Length && tokens[..toknext] == FlatZip(zip, 0) && toksuper == Super(zip)
      modifies this`toknext, this`toksuper, this`zip, tokens
      ensures ok <==> old(toknext) < tokens.Length
      ensures toknext == old(toknext) + (if ok then 1 else 0) && tokens[..toknext] == FlatZip(zip, 0)
      ensures toksuper == Super(zip)
      ensures zip == if ok then In(old(zip), kind, pos, []) else old(zip)
    {
      ghost var was := tokens[..toknext];
      ok := AllocToken(tokens);
      if !ok {
        return;
      }
      CountsChild(zip);
      ghost var t := tokens[toknext - 1];
      assert tokens[..toknext] == was + [t];
      CountChild(tokens);
      assert GrownAt(was + [t], toksuper) == GrownAt(was, toksuper) + [t];
      tokens[toknext - 1] := tokens[toknext - 1].(kind := kind, start := pos);
      toksuper := toknext - 1;
      assert tokens[..toknext] == FlatZip(zip, 1) + [Token(kind, pos, -1, 0)];
      zip := In(zip, kind, pos, []);
    }

    /** The last open token at or before index `from`, -1 if there is none. */
    method FindOpen(tokens: array<Token>, from: int) returns (i: int)
      requires -1 <= from < toknext <= tokens.Length
      ensures -1 <= i <= from
      ensures i >= 0 ==> !Closed(tokens[i])
      ensures forall k :: i < k <= from ==> Closed(tokens[k])
    {
      i := from;
      while i >= 0 && Closed(tokens[i])
        invariant -1 <= i <= from
        invariant forall k :: i < k <= from ==> Closed(tokens[k])
      {
        i := i - 1;
      }
    }

    method CloseBranch(tokens: array<Token>, kind: Kind) returns (ok: bool)
      requires toknext <= tokens.Length && tokens[..toknext] == FlatZip(zip, 0) && toksuper == Super(zip)
      modifies this`toksuper, this`zip, tokens
      ensures tokens[..toknext] == FlatZip(zip, 0) && toksuper == Super(zip)
      ensures toknext == 0 ==> tokens[..] == old(tokens[..])
      ensures ok <==> Feed(old(zip), Close(kind, pos)).Some?
      ensures zip == if ok then Feed(old(zip), Close(kind, pos)).value else old(zip)
    {
      LastOpen(zip, 0);
      OpenIsNotClosed(zip);
      var i := FindOpen(tokens, toknext - 1);
      OnlyOne(tokens[..toknext], i, Super(zip));
      if i == -1 || tokens[i].kind != kind {
        return false;
      }
      ghost var z := Feed(zip, Close(kind, pos)).value;
      ClosesBranch(zip, pos);
      tokens[i] := tokens[i].(end := pos + 1);
      assert tokens[..toknext] == FlatZip(z, 0);
      LastOpen(z, 0);
      OpenIsNotClosed(z);
      toksuper := FindOpen(tokens, i);
      OnlyOne(tokens[..toknext], toksuper, Super(z));
      zip := z;
      ok := true;
    }

    /** A string or a primitive was read: it becomes a child of the superior token. */
    method AddWord(tokens: array<Token>, ghost n: Node)
      requires n.Leaf? && 0 < toknext <= tokens.Length && toksuper == Super(zip)
      requires tokens[..toknext] == FlatZip(zip, 0) + FlatNode(n)
      modifies this`zip, tokens
      ensures tokens[..toknext] == FlatZip(zip, 0) && toksuper == Super(zip) && zip == Add(old(zip), n)
    {
      CountsChild(zip);
      AddsLeaf(zip, n);
      CountChild(tokens);
      assert GrownAt(FlatZip(zip, 0) + FlatNode(n), toksuper) == GrownAt(FlatZip(zip, 0), toksuper) + FlatNode(n);
      zip := Add(zip, n);
    }

    /** One character of the main loop. */
    method Advance(js: string, tokens: array<Token>) returns (code: Code)
      requires Valid(js, tokens) && pos < |js|
      modifies this, tokens
      ensures Valid(js, tokens)
      ensures code == Success ==> pos > old(pos) && Read(js, pos, zip) == Read(js, old(pos), old(zip))
      ensures code == NoMem ==> toknext == tokens.Length && pos == old(pos) && zip == old(zip)
      ensures code != Success && code != NoMem ==> Read(js, old(pos), old(zip)) == Outcome(code, zip)
      ensures toknext >= old(toknext) && (toknext == 0 ==> tokens[..] == old(tokens[..]))
    {
      var c := js[pos];
      code := Success;
      if c == '{' || c == '[' {
        var ok := OpenBranch(tokens, if c == '{' then Object else Array);
        if !ok {
          return NoMem;
        }
      } else if c == '}' || c == ']' {
        var ok := CloseBranch(tokens, if c == '}' then Object else Array);
        if !ok {
          return Inval;
        }
      } else if c == '"' {
        code := ParseString(js, tokens);
        if code != Success {
          return;
        }
        AddWord(tokens, Leaf(String, old(pos) + 1, pos));
      } else if !IsBlank(c) {
        code := ParsePrimitive(js, tokens);
        if code != Success {
          return;
        }
        AddWord(tokens, Leaf(Primitive, old(pos), pos + 1));
      }
      pos := pos + 1;
    }

    /**
      jsmn_parse. When it runs out of tokens it stops in a state from which the rest of
      the text reads as it would have read from where the call began.
     */
    method Parse(js: string, tokens: array<Token>) returns (code: Code)
      requires Valid(js, tokens)
      modifies this, tokens
      ensures Valid(js, tokens)
      ensures code == NoMem ==> toknext == tokens.Length && Read(js, pos, zip) == Read(js, old(pos), old(zip))
      ensures code == NoMem ==> toknext < |js|
      ensures code != NoMem ==> Read(js, old(pos), old(zip)) == Outcome(code, zip)
      ensures toknext >= old(toknext) && (toknext == 0 ==> tokens[..] == old(tokens[..]))
    {
      while pos < |js|
        invariant Valid(js, tokens) && Read(js, pos, zip) == Read(js, old(pos), old(zip))
        invariant toknext >= old(toknext) && (toknext == 0 ==> tokens[..] == old(tokens[..]))
        decreases |js| - pos
      {
        code := Advance(js, tokens);
        if code != Success {
          return;
        }
      }
      LastOpen(zip, 0);
      OpenIsNotClosed(zip);
      var i := FindOpen(tokens, toknext - 1);
      OnlyOne(tokens[..toknext], i, Super(zip));
      code := if i >= 0 then Part else Success;
    }
  }

  lemma OpenIsNotClosed(z: Zip)
    ensures -1 <= Super(z) < |FlatZip(z, 0)|
    ensures Super(z) == -1 <==> z.Top?
    ensures z.In? ==> !Closed(FlatZip(z, 0)[Super(z)])
  {
    LastOpen(z, 0);
  }

  /** Two indices with nothing open above them, both open or -1, are the same. */
  lemma OnlyOne(s: seq<Token>, i: int, j: int)
    requires -1 <= i < |s| && -1 <= j < |s|
    requires (i >= 0 ==> !Closed(s[i])) && (j >= 0 ==> !Closed(s[j]))
    requires (forall k :: i < k < |s| ==> Closed(s[k])) && (forall k :: j < k < |s| ==> Closed(s[k]))
    ensures i == j
  {
  }

  /** _co_json_string_tokenize: the token array grows until it is large enough. */
  method Tokenize(js: string) returns (code: Code, tokens: array<Token>, ghost zip: Zip)
    ensures Read(js, 0, Top([])) == Outcome(code, zip)
    ensures fresh(tokens) && tokens.Length >= 128 && |FlatZip(zip, 0)| <= tokens.Length
    ensures tokens[..|FlatZip(zip, 0)|] == FlatZip(zip, 0)
    ensures |FlatZip(zip, 0)| == 0 ==> tokens[0] == Token(Primitive, 0, 0, 0)
  {
    var parser := new Parser();
    var t := 128;
    tokens := new Token[t](_ => UNUSED);
    code := parser.Parse(js, tokens);
    while code == NoMem
      invariant fresh(parser) && fresh(tokens) && t == tokens.Length >= 128 && parser.Valid(js, tokens)
      invariant code == NoMem ==> parser.toknext == t < |js|
      invariant parser.toknext == 0 ==> tokens[0] == UNUSED
      invariant Read(js, 0, Top([])) ==
                if code == NoMem then Read(js, parser.pos, parser.zip) else Outcome(code, parser.zip)
      decreases code == NoMem, |js| - t
    {
      ghost var used := tokens[..];
      t := t * 2 + 1;
      var grown := new Token[t](_ => UNUSED);
      forall i | 0 <= i < tokens.Length {
        grown[i] := tokens[i];
      }
      assert grown[..parser.toknext] == used;
      tokens := grown;
      code := parser.Parse(js, tokens);
    }
    zip := parser.zip;
  }
}
