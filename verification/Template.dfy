/** The `{var}` templates of the LCD screens (`placeholders`, `render`). */
module Template {
  import opened Wrappers

  datatype Problem = StrayBrace | Unclosed

  predicate IsBrace(c: char) {
    c == '{' || c == '}'
  }

  /** Index of the first brace, or the length. */
  function FirstBrace(s: string): (i: nat)
    ensures i <= |s| && (i < |s| ==> IsBrace(s[i])) && forall k | 0 <= k < i :: !IsBrace(s[k])
  {
    if s == [] || IsBrace(s[0]) then 0 else 1 + FirstBrace(s[1..])
  }

  /** Index of the first closing brace, or the length. */
  function FirstClose(s: string): (i: nat)
    ensures i <= |s| && (i < |s| ==> s[i] == '}') && '}' !in s[..i]
  {
    if s == [] || s[0] == '}' then 0
    else
      assert s[..1 + FirstClose(s[1..])] == [s[0]] + s[1..][..FirstClose(s[1..])];
      1 + FirstClose(s[1..])
  }

  /** The brace at `i` is doubled, so it stands for itself. */
  predicate Doubled(s: string, i: nat)
    requires i < |s|
  {
    i + 1 < |s| && s[i + 1] == s[i]
  }

  // ---------- specification ----------

  /** What a template starts with, up to and including its first brace or variable. */
  datatype Token =
    | Plain(text: string)
    | Brace(text: string, rest: string)
    | Hole(text: string, name: string, rest: string)
    | Stray(text: string, rest: string)
    | Open(text: string, rest: string)

  function Next(s: string): (t: Token)
    ensures if t.Plain? then t.text == s else |t.rest| < |s|
  {
    var i := FirstBrace(s);
    if i == |s| then Plain(s)
    else if Doubled(s, i) then Brace(s[..i + 1], s[i + 2..])
    else if s[i] == '}' then Stray(s[..i + 1], s[i + 1..])
    else
      var after := s[i + 1..];
      var end := FirstClose(after);
      if end == |after| then Open(s[..i + 1], after) else Hole(s[..i], after[..end], after[end + 1..])
  }

  function Prepend(name: string, r: Result<seq<string>, Problem>): Result<seq<string>, Problem> {
    if r.Ok? then Ok([name] + r.value) else r
  }

  function Names(s: string): Result<seq<string>, Problem>
    decreases |s|
  {
    match Next(s)
    case Plain(_) => Ok([])
    case Brace(_, rest) => Names(rest)
    case Hole(_, name, rest) => Prepend(name, Names(rest))
    case Stray(_, _) => Err(StrayBrace)
    case Open(_, _) => Err(Unclosed)
  }

  type Vars = seq<(string, string)>

  function Lookup(vars: Vars, name: string): Option<string> {
    if vars == [] then None
    else if vars[0].0 == name then Some(vars[0].1)
    else Lookup(vars[1..], name)
  }

  function ValueOf(vars: Vars, name: string): string {
    if Lookup(vars, name).Some? then Lookup(vars, name).value else "{" + name + "}"
  }

  /** A name stands for the value first listed for it. */
  lemma {:induction false} ValueIsFirstListed(vars: Vars, name: string, i: nat)
    requires i < |vars| && vars[i].0 == name && forall j | 0 <= j < i :: vars[j].0 != name
    ensures ValueOf(vars, name) == vars[i].1
  {
    if i > 0 {
      assert vars[0].0 != name;
      ValueIsFirstListed(vars[1..], name, i - 1);
    }
  }

  /** A name without a value stays as it is, braces and all. */
  lemma {:induction false} UnlistedStays(vars: Vars, name: string)
    requires forall j | 0 <= j < |vars| :: vars[j].0 != name
    ensures ValueOf(vars, name) == "{" + name + "}"
  {
    if vars != [] {
      assert vars[0].0 != name;
      UnlistedStays(vars[1..], name);
    }
  }

  /** The text before the trailing blanks are cut. */
  function Filled(s: string, vars: Vars): string
    decreases |s|
  {
    match Next(s)
    case Plain(text) => text
    case Brace(text, rest) => text + Filled(rest, vars)
    case Hole(text, name, rest) => text + (ValueOf(vars, name) + Filled(rest, vars))
    case Stray(text, rest) => text + Filled(rest, vars)
    case Open(text, rest) => text + Filled(rest, vars)
  }

  /** Unicode `White_Space`. */
  predicate IsSpace(c: char) {
    || '\t' <= c <= '\r' || c == ' ' || c == '\U{85}' || c == '\U{A0}' || c == '\U{1680}'
    || '\U{2000}' <= c <= '\U{200A}' || c == '\U{2028}' || c == '\U{2029}' || c == '\U{202F}'
    || c == '\U{205F}' || c == '\U{3000}'
  }

  /** All twenty-five of them. */
  lemma WhiteSpace(c: char)
    ensures IsSpace(c) <==>
            c in {'\t', '\n', '\U{B}', '\U{C}', '\r', ' ', '\U{85}', '\U{A0}', '\U{1680}', '\U{2000}', '\U{2001}',
                  '\U{2002}', '\U{2003}', '\U{2004}', '\U{2005}', '\U{2006}', '\U{2007}', '\U{2008}', '\U{2009}',
                  '\U{200A}', '\U{2028}', '\U{2029}', '\U{202F}', '\U{205F}', '\U{3000}'}
  {
  }

  function TrimEnd(s: string): (t: string)
    ensures t <= s && (t != [] ==> !IsSpace(t[|t| - 1])) && forall k | |t| <= k < |s| :: IsSpace(s[k])
  {
    if s != [] && IsSpace(s[|s| - 1]) then TrimEnd(s[..|s| - 1]) else s
  }

  // ---------- the code ----------

  function Prefixed(names: seq<string>, r: Result<seq<string>, Problem>): Result<seq<string>, Problem> {
    if r.Ok? then Ok(names + r.value) else r
  }

  lemma PrefixedGrows(names: seq<string>, name: string, r: Result<seq<string>, Problem>)
    ensures Prefixed(names + [name], r) == Prefixed(names, Prepend(name, r))
    ensures Prefixed([], r) == r
  {
    if r.Ok? {
      assert names + [name] + r.value == names + ([name] + r.value);
      assert [] + r.value == r.value;
    }
  }

  method Placeholders(tpl: string) returns (r: Result<seq<string>, Problem>)
    ensures r == Names(tpl)
  {
    hide Prepend;
    var names, rest := [], tpl;
    var i := FirstBrace(rest);
    PrefixedGrows([], [], Names(rest));
    while i < |rest|
      invariant i == FirstBrace(rest)
      invariant Names(tpl) == Prefixed(names, Names(rest))
      decreases |rest|
    {
      var c, after := rest[i], rest[i + 1..];
      if after != [] && after[0] == c {
        assert after[1..] == rest[i + 2..];
        rest := after[1..];
        i := FirstBrace(rest);
        continue;
      }
      if c == '}' {
        return Err(StrayBrace);
      }
      var end := FirstClose(after);
      if end == |after| {
        return Err(Unclosed);
      }
      PrefixedGrows(names, after[..end], Names(after[end + 1..]));
      names := names + [after[..end]];
      rest := after[end + 1..];
      i := FirstBrace(rest);
    }
    assert names + [] == names;
    r := Ok(names);
  }

  /** What filling in one token emits. */
  function Emitted(t: Token, vars: Vars): string {
    if t.Hole? then t.text + ValueOf(vars, t.name) else t.text
  }

  lemma FilledTokenwise(s: string, vars: Vars)
    ensures Filled(s, vars) == if Next(s).Plain? then s else Emitted(Next(s), vars) + Filled(Next(s).rest, vars)
  {
    hide ValueOf;
    hide Next;
    var t := Next(s);
    if t.Hole? {
      assert t.text + ValueOf(vars, t.name) + Filled(t.rest, vars)
          == t.text + (ValueOf(vars, t.name) + Filled(t.rest, vars));
    }
  }

  method Render(tpl: string, vars: Vars) returns (out: string)
    ensures out == TrimEnd(Filled(tpl, vars))
  {
    hide Filled;
    out := "";
    var rest := tpl;
    while FirstBrace(rest) < |rest|
      invariant Filled(tpl, vars) == out + Filled(rest, vars)
      decreases |rest|
    {
      FilledTokenwise(rest, vars);
      var piece, more := RenderOne(rest, vars);
      assert out + (piece + Filled(more, vars)) == out + piece + Filled(more, vars);
      out := out + piece;
      rest := more;
    }
    FilledTokenwise(rest, vars);
    out := out + rest;
    out := TrimEnd(out);
  }

  /** One round of the loop: what it appends, and what is left to do. */
  method RenderOne(rest: string, vars: Vars) returns (piece: string, more: string)
    requires FirstBrace(rest) < |rest|
    ensures !Next(rest).Plain? && piece == Emitted(Next(rest), vars) && more == Next(rest).rest
  {
    var i := FirstBrace(rest);
    piece := rest[..i];
    var c, after := rest[i], rest[i + 1..];
    assert rest[..i + 1] == piece + [c];
    if after != [] && after[0] == c {
      assert rest[i + 2..] == after[1..];
      return piece + [c], after[1..];
    }
    var end := FirstClose(after);
    if c == '{' && end < |after| {
      assert rest[i..i + end + 2] == [rest[i]] + after[..end + 1] && after[..end + 1] == after[..end] + [after[end]];
      assert rest[i..i + end + 2] == "{" + after[..end] + "}";
      var value := Lookup(vars, after[..end]);
      piece := piece + (if value.Some? then value.value else rest[i..i + end + 2]);
      more := after[end + 1..];
    } else {
      piece, more := piece + [c], after;
    }
  }

  // ---------- templates as their author means them ----------

  datatype Item = Literal(text: string) | Variable(name: string)
  {
    /** A name cannot hold a closing brace or begin with an opening one. */
    predicate Valid() {
      Variable? ==> '}' !in name && (name != [] ==> name[0] != '{')
    }
  }

  function PrintText(text: string): string {
    if text == [] then []
    else (if IsBrace(text[0]) then [text[0], text[0]] else [text[0]]) + PrintText(text[1..])
  }

  function PrintItem(item: Item): string {
    match item
    case Literal(text) => PrintText(text)
    case Variable(name) => "{" + name + "}"
  }

  function Print(items: seq<Item>): string {
    if items == [] then [] else PrintItem(items[0]) + Print(items[1..])
  }

  predicate AllValid(items: seq<Item>) {
    forall i | 0 <= i < |items| :: items[i].Valid()
  }

  function NamesIn(items: seq<Item>): seq<string> {
    if items == [] then []
    else (if items[0].Variable? then [items[0].name] else []) + NamesIn(items[1..])
  }

  /** Literals as they are, variables replaced: a value is never looked at again. */
  function Meaning(items: seq<Item>, vars: Vars): string {
    if items == [] then []
    else (if items[0].Variable? then ValueOf(vars, items[0].name) else items[0].text) + Meaning(items[1..], vars)
  }

  /** `t` with `text` in front. */
  function Behind(text: string, t: Token): Token {
    match t
    case Plain(x) => Plain(text + x)
    case Brace(x, rest) => Brace(text + x, rest)
    case Hole(x, name, rest) => Hole(text + x, name, rest)
    case Stray(x, rest) => Stray(text + x, rest)
    case Open(x, rest) => Open(text + x, rest)
  }

  lemma NextAfterChar(c: char, s: string)
    requires !IsBrace(c)
    ensures Next([c] + s) == Behind([c], Next(s))
  {
    var t := [c] + s;
    var i := FirstBrace(s);
    assert t[1..] == s && FirstBrace(t) == 1 + i;
    assert t[..i + 1] == [c] + s[..i];
    if i < |s| {
      assert t[i + 2..] == s[i + 1..] && t[..i + 2] == [c] + s[..i + 1];
      assert Doubled(s, i) ==> t[i + 3..] == s[i + 2..];
    }
  }

  lemma NextAfterBrace(c: char, s: string)
    requires IsBrace(c)
    ensures Next([c, c] + s) == Brace([c], s)
  {
    var t := [c, c] + s;
    assert FirstBrace(t) == 0 && t[2..] == s && t[..1] == [c];
  }

  lemma NextAfterName(name: string, s: string)
    requires Variable(name).Valid()
    ensures Next("{" + name + "}" + s) == Hole([], name, s)
  {
    var t := "{" + name + "}" + s;
    var after := name + "}" + s;
    assert t[1..] == after && FirstBrace(t) == 0;
    assert name != [] ==> t[1] == name[0];
    CloseAfterName(name, s);
    assert after[..|name|] == name && after[|name| + 1..] == s;
  }

  lemma {:induction false} CloseAfterName(name: string, s: string)
    requires '}' !in name
    ensures FirstClose(name + "}" + s) == |name|
  {
    var t := name + "}" + s;
    if name != [] {
      assert t[1..] == name[1..] + "}" + s && t[0] == name[0];
      CloseAfterName(name[1..], s);
    }
  }

  lemma {:induction false} TextPasses(text: string, s: string, vars: Vars)
    ensures Names(PrintText(text) + s) == Names(s)
    ensures Filled(PrintText(text) + s, vars) == text + Filled(s, vars)
  {
    hide Next;
    hide Names;
    hide Filled;
    if text == [] {
      assert PrintText(text) + s == s && text + Filled(s, vars) == Filled(s, vars);
    } else {
      var more := PrintText(text[1..]) + s;
      TextPasses(text[1..], s, vars);
      CharPasses(text[0], more, vars);
      assert PrintText(text) + s == (if IsBrace(text[0]) then [text[0], text[0]] else [text[0]]) + more;
      assert text + Filled(s, vars) == [text[0]] + (text[1..] + Filled(s, vars));
    }
  }

  lemma CharPasses(c: char, s: string, vars: Vars)
    ensures var printed := (if IsBrace(c) then [c, c] else [c]) + s;
            Names(printed) == Names(s) && Filled(printed, vars) == [c] + Filled(s, vars)
  {
    hide Next;
    if IsBrace(c) {
      NextAfterBrace(c, s);
    } else {
      NextAfterChar(c, s);
      match Next(s) {
        case Plain(x) =>
        case Brace(x, rest) => assert [c] + x + Filled(rest, vars) == [c] + (x + Filled(rest, vars));
        case Hole(x, name, rest) =>
          var more := ValueOf(vars, name) + Filled(rest, vars);
          assert [c] + x + more == [c] + (x + more);
        case Stray(x, rest) => assert [c] + x + Filled(rest, vars) == [c] + (x + Filled(rest, vars));
        case Open(x, rest) => assert [c] + x + Filled(rest, vars) == [c] + (x + Filled(rest, vars));
      }
    }
  }

  lemma NamePasses(name: string, s: string, vars: Vars)
    requires Variable(name).Valid()
    ensures Names("{" + name + "}" + s) == Prepend(name, Names(s))
    ensures Filled("{" + name + "}" + s, vars) == ValueOf(vars, name) + Filled(s, vars)
  {
    hide Next;
    hide ValueOf;
    NextAfterName(name, s);
    assert [] + (ValueOf(vars, name) + Filled(s, vars)) == ValueOf(vars, name) + Filled(s, vars);
  }

  /** Printing a template and reading it back gives its variables, and fills in exactly its meaning. */
  lemma {:induction false} PrintedReadsBack(items: seq<Item>, vars: Vars)
    requires AllValid(items)
    ensures Names(Print(items)) == Ok(NamesIn(items))
    ensures Filled(Print(items), vars) == Meaning(items, vars)
  {
    if items == [] {
      assert Next([]) == Plain([]);
    } else {
      hide Names;
      hide Filled;
      hide PrintText;
      hide ValueOf;
      var more := items[1..];
      assert AllValid(more);
      PrintedReadsBack(more, vars);
      assert items[0].Valid();
      match items[0] {
        case Literal(text) =>
          TextPasses(text, Print(more), vars);
          assert NamesIn(items) == [] + NamesIn(more) == NamesIn(more);
        case Variable(name) =>
          NamePasses(name, Print(more), vars);
      }
    }
  }

  /** The items an accepted template is made of. */
  function Parse(s: string): seq<Item>
    requires Names(s).Ok?
    decreases |s|
  {
    match Next(s)
    case Plain(text) => [Literal(text)]
    case Brace(text, rest) => [Literal(text)] + Parse(rest)
    case Hole(text, name, rest) => [Literal(text)] + ([Variable(name)] + Parse(rest))
  }

  lemma {:induction false} PrintPlain(s: string)
    requires forall k | 0 <= k < |s| :: !IsBrace(s[k])
    ensures PrintText(s) == s
  {
    if s != [] {
      PrintPlain(s[1..]);
    }
  }

  lemma {:induction false} PrintBraceLast(s: string, c: char)
    requires (forall k | 0 <= k < |s| :: !IsBrace(s[k])) && IsBrace(c)
    ensures PrintText(s + [c]) == s + [c, c]
  {
    if s == [] {
      assert s + [c] == [c] && [c][1..] == [];
      assert PrintText([c]) == [c, c] + PrintText([]);
    } else {
      assert (s + [c])[1..] == s[1..] + [c];
      PrintBraceLast(s[1..], c);
    }
  }

  /** Each token prints back as the part of the template it was read from. */
  lemma TokenPrints(s: string)
    ensures match Next(s)
            case Plain(text) => PrintText(text) == s
            case Brace(text, rest) => PrintText(text) + rest == s
            case Hole(text, name, rest) =>
              PrintText(text) + ("{" + name + "}" + rest) == s && Variable(name).Valid()
            case _ => true
  {
    hide PrintText;
    hide FirstBrace;
    hide FirstClose;
    var i := FirstBrace(s);
    PrintPlain(s[..i]);
    if i == |s| {
      assert s[..i] == s;
    } else if Doubled(s, i) {
      PrintBraceLast(s[..i], s[i]);
      assert s[..i + 1] == s[..i] + [s[i]];
      assert s == s[..i] + [s[i], s[i]] + s[i + 2..];
    } else if s[i] == '{' {
      HolePrints(s[i + 1..]);
      assert s == s[..i] + ("{" + s[i + 1..]);
    }
  }

  lemma HolePrints(after: string)
    ensures var end := FirstClose(after);
            end < |after| ==> "{" + after[..end] + "}" + after[end + 1..] == "{" + after
  {
    hide FirstClose;
    var end := FirstClose(after);
    if end < |after| {
      Bracketed("{", after, end, "}");
    }
  }

  lemma Bracketed(open: string, s: string, k: nat, close: string)
    requires k < |s| && close == [s[k]]
    ensures open + s[..k] + close + s[k + 1..] == open + s
  {
    assert s == s[..k] + close + s[k + 1..];
  }

  lemma {:induction false} ParsePrints(s: string)
    requires Names(s).Ok?
    ensures AllValid(Parse(s)) && Print(Parse(s)) == s
    decreases |s|
  {
    hide Next;
    hide PrintText;
    TokenPrints(s);
    match Next(s) {
      case Plain(text) =>
        assert Parse(s)[1..] == [];
      case Brace(text, rest) =>
        ParsePrints(rest);
        assert Parse(s)[1..] == Parse(rest);
      case Hole(text, name, rest) =>
        ParsePrints(rest);
        var tail := [Variable(name)] + Parse(rest);
        assert tail[1..] == Parse(rest) && Parse(s)[1..] == tail;
    }
  }

  /** A template is accepted exactly when some literals and names print as it. */
  lemma AcceptedIffPrinted(s: string)
    ensures Names(s).Ok? <==> exists items :: AllValid(items) && Print(items) == s
  {
    if Names(s).Ok? {
      ParsePrints(s);
    }
    if items :| AllValid(items) && Print(items) == s {
      PrintedReadsBack(items, []);
    }
  }
}
