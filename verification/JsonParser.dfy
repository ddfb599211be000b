/** The `parser` class without a callback. An exception ends the parse; it is the result `None` here. */
module JsonParser {
  import opened Bytes
  import S = Seqs
  import opened JsonLex
  import opened JsonString
  import opened JsonValue
  import opened JsonNumber
  import opened JsonGrammar
  import opened JsonTokens
  import opened JsonScanner

  /** The tokens still to come when the last one, of kind `kind`, stands at `start` and ends at `cursor`. */
  ghost function Ahead(text: seq<Byte>, start: nat, cursor: nat, kind: Kind): (ts: seq<Token>)
    requires start <= |text| && (!Final(kind) ==> cursor <= |text|)
    ensures ts != []
  {
    if Final(kind) then [Plain(kind)] else [TokenOf(text[start..])] + Tokens(text[cursor..])
  }

  /** Scanning on from `cursor` uncovers the rest of the tokens. */
  lemma {:induction false} AheadAdvances(text: seq<Byte>, cursor: nat, start: nat, kind: Kind, end: nat)
    requires cursor <= |text| && start == cursor + SpaceRun(text[cursor..])
    requires start <= end && Lexed(kind, end - start) == Lex(text[start..])
    ensures !Final(kind) ==> end <= |text|
    ensures Ahead(text, start, end, kind) == Tokens(text[cursor..])
  {
    var s, t := text[cursor..], text[start..];
    S.DropDrop(text, cursor, SpaceRun(s));
    if Final(kind) {
      TokensStep(s, t, kind, []);
    } else {
      S.DropDrop(text, start, end - start);
      TokensStep(s, t, kind, text[end..]);
    }
  }

  lemma {:induction false} StringTokenText(text: seq<Byte>, start: nat, cursor: nat)
    requires start + 2 <= cursor <= |text| && Lex(text[start..]) == Lexed(ValueString, cursor - start)
    ensures Ahead(text, start, cursor, ValueString)[0] == Token.Text(TextOf(text[start..], cursor - start))
  {
  }

  /** What decides about an object or an array is the token behind its opening bracket. */
  lemma {:induction false} ObjectCases(ts: seq<Token>)
    requires |ts| >= 2 && ts[0] == Plain(BeginObject)
    ensures ParseValue(ts) ==
            if ts[1] == Plain(EndObject) then Ok(Obj([]), ts[1..][1..])
            else if ts[1] == Plain(ValueSeparator) then Fail
            else ParseMembers(ts[1..], [])
  {
  }

  lemma {:induction false} ArrayCases(ts: seq<Token>)
    requires |ts| >= 2 && ts[0] == Plain(BeginArray)
    ensures ParseValue(ts) ==
            if ts[1] == Plain(EndArray) then Ok(Arr([]), ts[1..][1..])
            else if ts[1] == Plain(ValueSeparator) then Fail
            else ParseElems(ts[1..], [])
  {
  }

  class Parser {
    const lexer: Lexer
    var lastToken: Kind
    ghost var ahead: seq<Token>   // the last token read and all the ones behind it

    ghost predicate Valid()
      reads this, lexer
    {
      && lexer.start <= |lexer.text| && lexer.start <= lexer.cursor
      && Lexed(lastToken, lexer.cursor - lexer.start) == Lex(lexer.text[lexer.start..])
      && (!Final(lastToken) ==> lexer.cursor <= |lexer.text|)
      && ahead == Ahead(lexer.text, lexer.start, lexer.cursor, lastToken)
    }

    constructor (text: seq<Byte>)
      ensures Valid() && fresh(lexer) && ahead == Tokens(text)
    {
      var l := new Lexer(text);
      var kind := l.Scan();
      lexer := l;
      lastToken := kind;
      ahead := Tokens(text);
      new;
      assert text[0..] == text;
      AheadAdvances(text, 0, lexer.start, lastToken, lexer.cursor);
    }

    /** The next token. It is never called once the input has ended or failed to scan. */
    method GetToken()
      requires Valid() && !Final(lastToken)
      modifies this, lexer
      ensures Valid() && ahead == old(ahead)[1..]
    {
      ghost var cursor := lexer.cursor;
      ahead := Tokens(lexer.text[cursor..]);
      lastToken := lexer.Scan();
      AheadAdvances(lexer.text, cursor, lexer.start, lastToken, lexer.cursor);
    }

    /** `get_string` on the current token. */
    method GetString() returns (r: JsonString.Text)
      requires Valid() && lastToken == ValueString
      ensures ahead[0] == Token.Text(r)
    {
      r := lexer.GetString();
      StringTokenText(lexer.text, lexer.start, lexer.cursor);
    }

    /** `get_number` on the current token: nothing if `strtold` does not stop at its end. */
    method GetNumber() returns (r: Option<Value>)
      requires Valid() && lastToken == ValueNumber
      ensures ahead[0] == Number(r) && (r.Some? ==> IsNumberValue(r.value))
    {
      var s := lexer.text[lexer.start..];
      var len := lexer.cursor - lexer.start;
      NumberIsWhole(s);
      r := if StrtoldEnd(s) == len then Some(NumberValue(s[..len])) else None;
    }

    lemma FirstIsValue()
      requires Valid()
      ensures lastToken == ValueString <==> ahead[0].Text?
      ensures lastToken == ValueNumber <==> ahead[0].Number?
      ensures ahead[0].Plain? ==> ahead[0].kind == lastToken
      ensures !Final(lastToken) ==> |ahead| >= 2
    {
    }

    /** `parse_internal`, without its callback. */
    method ParseInternal() returns (r: Option<Value>)
      requires Valid()
      modifies this, lexer
      ensures var p := ParseValue(old(ahead));
              if p.Fail? then r == None else r == Some(p.value) && Valid() && ahead == p.rest
      decreases |ahead|, 1
    {
      if lastToken == BeginObject {
        r := ParseObject();
      } else if lastToken == BeginArray {
        r := ParseArray();
      } else {
        r := ParseScalar();
      }
    }

    method ParseObject() returns (r: Option<Value>)
      requires Valid() && lastToken == BeginObject
      modifies this, lexer
      ensures var p := ParseValue(old(ahead));
              if p.Fail? then r == None else r == Some(p.value) && Valid() && ahead == p.rest
      decreases |ahead|, 0
    {
      FirstIsValue();
      ObjectCases(ahead);
      GetToken();
      FirstIsValue();
      if lastToken == EndObject {
        GetToken();
        r := Some(Obj([]));
      } else if lastToken == ValueSeparator {
        r := None;
      } else {
        r := ParseMemberLoop();
      }
    }

    method ParseArray() returns (r: Option<Value>)
      requires Valid() && lastToken == BeginArray
      modifies this, lexer
      ensures var p := ParseValue(old(ahead));
              if p.Fail? then r == None else r == Some(p.value) && Valid() && ahead == p.rest
      decreases |ahead|, 0
    {
      FirstIsValue();
      ArrayCases(ahead);
      GetToken();
      FirstIsValue();
      if lastToken == EndArray {
        GetToken();
        r := Some(Arr([]));
      } else if lastToken == ValueSeparator {
        r := None;
      } else {
        r := ParseElemLoop();
      }
    }

    /** The cases of `parse_internal` that take one token. */
    method ParseScalar() returns (r: Option<Value>)
      requires Valid() && lastToken != BeginArray && lastToken != BeginObject
      modifies this, lexer
      ensures var p := ParseValue(old(ahead));
              if p.Fail? then r == None else r == Some(p.value) && Valid() && ahead == p.rest
    {
      FirstIsValue();
      if lastToken == LiteralNull {
        r := Some(Null);
      } else if lastToken == ValueString {
        var s := GetString();
        r := if s.Bytes? then Some(Str(s.bytes)) else None;
      } else if lastToken == LiteralTrue {
        r := Some(Bool(true));
      } else if lastToken == LiteralFalse {
        r := Some(Bool(false));
      } else if lastToken == ValueNumber {
        r := GetNumber();
      } else {
        r := None;
      }
      if r.Some? {
        GetToken();
      }
    }

    /** The loop over the elements of an array, up to and including its closing bracket. */
    method ParseElemLoop() returns (r: Option<Value>)
      requires Valid()
      modifies this, lexer
      ensures var p := ParseElems(old(ahead), []);
              if p.Fail? then r == None else r == Some(p.value) && Valid() && ahead == p.rest
      decreases |ahead|, 2
    {
      var elems: seq<Value> := [];
      ghost var ts := ahead;
      while true
        invariant Valid()
        invariant ParseElems(ts, []) == ParseElems(ahead, elems)
        invariant |ahead| <= |ts|
        decreases |ahead|
      {
        var value := ParseInternal();
        if value.None? {
          return None;
        }
        elems := elems + [value.value];
        FirstIsValue();
        if lastToken != ValueSeparator {
          break;
        }
        GetToken();
      }
      if lastToken != EndArray {
        return None;
      }
      GetToken();
      r := Some(Arr(elems));
    }

    /** A key and its colon. */
    method ParseKey() returns (key: Option<seq<Byte>>)
      requires Valid()
      modifies this, lexer
      ensures Valid()
      ensures var ts := old(ahead);
              if key.Some? then
                |ts| >= 2 && ts[0] == Token.Text(Bytes(key.value)) && ts[1] == Plain(NameSeparator) && ahead == ts[2..]
              else
                |ts| < 2 || !ts[0].Text? || !ts[0].text.Bytes? || ts[1] != Plain(NameSeparator)
    {
      FirstIsValue();
      if lastToken != ValueString {
        return None;
      }
      var text := GetString();
      if !text.Bytes? {
        return None;
      }
      GetToken();
      FirstIsValue();
      if lastToken != NameSeparator {
        return None;
      }
      GetToken();
      key := Some(text.bytes);
    }

    /** One round of the loop over the members of an object. */
    method ParseMember(members: seq<Member>) returns (next: Option<seq<Member>>)
      requires Valid()
      modifies this, lexer
      ensures next.None? ==> ParseMembers(old(ahead), members).Fail?
      ensures next.Some? ==> Valid() && |ahead| < |old(ahead)|
      ensures next.Some? ==>
                ParseMembers(old(ahead), members) ==
                if ahead[0] == Plain(ValueSeparator) then ParseMembers(ahead[1..], next.value)
                else if ahead[0] == Plain(EndObject) then Ok(Obj(next.value), ahead[1..])
                else Fail
      decreases |ahead|, 2
    {
      var key := ParseKey();
      if key.None? {
        return None;
      }
      var value := ParseInternal();
      if value.None? {
        return None;
      }
      next := Some(Put(members, key.value, value.value));
    }

    /** The loop over the members of an object, up to and including its closing brace. */
    method ParseMemberLoop() returns (r: Option<Value>)
      requires Valid()
      modifies this, lexer
      ensures var p := ParseMembers(old(ahead), []);
              if p.Fail? then r == None else r == Some(p.value) && Valid() && ahead == p.rest
      decreases |ahead|, 3
    {
      var members: seq<Member> := [];
      ghost var ts := ahead;
      while true
        invariant Valid()
        invariant ParseMembers(ts, []) == ParseMembers(ahead, members)
        invariant |ahead| <= |ts|
        decreases |ahead|
      {
        var next := ParseMember(members);
        if next.None? {
          return None;
        }
        members := next.value;
        FirstIsValue();
        if lastToken != ValueSeparator {
          break;
        }
        GetToken();
      }
      if lastToken != EndObject {
        return None;
      }
      GetToken();
      r := Some(Obj(members));
    }
  }

  /** `json::parse`: the whole text. */
  method ParseText(text: seq<Byte>) returns (r: Option<Value>)
    ensures r == Parse(Tokens(text))
  {
    var p := new Parser(text);
    r := p.ParseInternal();
    if r.Some? {
      p.FirstIsValue();
      if p.lastToken != EndOfInput {
        r := None;
      }
    }
  }
}
