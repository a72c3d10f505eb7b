/** The tokenizer of `src/html-tokenizer.mjs`. Every scanning method of the
    class becomes a function from the input and a cursor to the scanned value
    and the next cursor. The cursor may run past the end of the input, as the
    source's `position` does; a read there is JavaScript's `undefined`. */
module Tokenizer {
  import opened Chars
  import opened Tokens
  import opened Outcomes

  /** `skipWhitespace`: past the end, `/\s/.test(undefined)` is false. */
  function SkipWhitespace(s: string, i: nat): (j: nat)
    ensures i <= j
    ensures i >= |s| ==> j == i
    ensures i <= |s| ==>
      && j <= |s|
      && (forall k {:trigger IsSpace(s[k])} :: i <= k < j ==> IsSpace(s[k]))
      && (j == |s| || !IsSpace(s[j]))
    ensures i < |s| && NoTrailingSpace(s) ==> j < |s|
  {
    if i >= |s| then i else Span(s, i, IsSpace)
  }

  /** The loops of `consumeTagName` and `consumeAttributeName`. At the end of
      the input they test `undefined`, whose string form "undefined" is in
      both classes, so they append "undefined" until the string grows too
      long and the engine throws. */
  function ConsumeRun(s: string, i: nat, p: char -> bool): (r: Result<Scanned<string>>)
    ensures r.Ok? ==>
      var w := r.value.value;
      var j := i + |w|;
      && j == r.value.next
      && j < |s|
      && s[i..j] == w
      && All(w, p)
      && !p(s[j])
    ensures r.Err? ==> r.error.Unterminated? && forall k {:trigger p(s[k])} :: i <= k < |s| ==> p(s[k])
  {
    if i >= |s| then
      Err(Unterminated(i))
    else
      var j := Span(s, i, p);
      if j == |s| then Err(Unterminated(j)) else Ok(Scanned(s[i..j], j))
  }

  /** `consumeTagName`: the maximal, possibly empty `[a-zA-Z0-9]` run. */
  function ConsumeTagName(s: string, i: nat): (r: Result<Scanned<string>>)
    ensures r.Ok? ==>
      var j := r.value.next;
      i <= j < |s| && r.value.value == s[i..j] && All(r.value.value, IsAlnum) && !IsAlnum(s[j])
    ensures r.Err? ==> forall k {:trigger IsAlnum(s[k])} :: i <= k < |s| ==> IsAlnum(s[k])
  {
    ConsumeRun(s, i, IsAlnum)
  }

  /** `consumeAttributeName`: the maximal `[a-zA-Z0-9-]` run. */
  function ConsumeAttributeName(s: string, i: nat): (r: Result<Scanned<string>>)
    ensures r.Ok? ==>
      var j := r.value.next;
      i <= j < |s| && r.value.value == s[i..j] && All(r.value.value, IsNameChar) && !IsNameChar(s[j])
    ensures r.Err? ==> forall k {:trigger IsNameChar(s[k])} :: i <= k < |s| ==> IsNameChar(s[k])
  {
    ConsumeRun(s, i, IsNameChar)
  }

  /** `consumeQuotedAttributeValue`, called with the cursor on the opening
      quote: the text up to the next `"`, and the cursor after that quote. A
      missing closing quote loops forever on `undefined !== '"'`. */
  function ConsumeQuotedAttributeValue(s: string, i: nat): (r: Result<Scanned<string>>)
    ensures r.Ok? ==>
      var q := i + 1 + |r.value.value|;
      && q < |s|
      && s[i + 1..q] == r.value.value
      && s[q] == '"'
      && '"' !in r.value.value
      && r.value.next == q + 1
    ensures r.Err? ==> r.error.Unterminated? && (i + 1 <= |s| ==> '"' !in s[i + 1..])
  {
    if i + 1 > |s| then
      Err(Unterminated(i + 1))
    else
      var q := IndexOf(s, i + 1, '"');
      if q == |s| then Err(Unterminated(q)) else Ok(Scanned(s[i + 1..q], q + 1))
  }

  /** `consumeAttribute`: a name, one skipped character (meant to be `=`,
      never checked), then a quoted value when `"` follows and `''` otherwise. */
  function ConsumeAttribute(s: string, i: nat): (r: Result<Scanned<Attribute>>)
    ensures r.Ok? ==> AttrShaped(r.value.value) && i < r.value.next <= |s|
    ensures r.Err? ==> r.error.Unterminated?
  {
    var n := ConsumeAttributeName(s, i);
    if n.Err? then
      Err(n.error)
    else
      var j := n.value.next + 1;
      if j < |s| && s[j] == '"' then
        var v := ConsumeQuotedAttributeValue(s, j);
        if v.Err? then Err(v.error) else Ok(Scanned(Attribute(n.value.value, v.value.value), v.value.next))
      else
        Ok(Scanned(Attribute(n.value.value, []), j))
  }

  /** `consumeAttributes`: attributes up to the end of the input, a `>` or a
      `/`, which is left for the caller. */
  function ConsumeAttributes(s: string, i: nat): (r: Result<Scanned<seq<Attribute>>>)
    requires i <= |s|
    ensures r.Ok? ==>
      var e := r.value.next;
      && i <= e <= |s|
      && (e == |s| || s[e] == '>' || s[e] == '/')
      && AttrsShaped(r.value.value)
    ensures r.Err? ==> r.error.Unterminated?
    decreases |s| - i
  {
    if i == |s| || s[i] == '>' then
      Ok(Scanned([], i))
    else
      var j := SkipWhitespace(s, i);
      if j < |s| && (s[j] == '/' || s[j] == '>') then
        Ok(Scanned([], j))
      else
        var a := ConsumeAttribute(s, j);
        if a.Err? then
          Err(a.error)
        else
          var rest := ConsumeAttributes(s, a.value.next);
          if rest.Err? then
            rest
          else
            Ok(Scanned([a.value.value] + rest.value.value, rest.value.next))
  }

  /** `consumeStartTag`, with the cursor on the `<`. */
  function ConsumeStartTag(s: string, i: nat): (r: Result<Scanned<seq<Token>>>)
    ensures r.Ok? ==>
      var ts := r.value.value;
      && (|ts| == 1 || |ts| == 2)
      && ts[0].TagOpen?
      && (|ts| == 2 ==> ts[1] == TagClose(ts[0].name))
      && AllShaped(ts)
      && i + |ts| < r.value.next
    ensures r.Err? ==> r.error.Unterminated?
  {
    var n := ConsumeTagName(s, i + 1);
    if n.Err? then
      Err(n.error)
    else
      var name, j := n.value.value, n.value.next;
      assert j == i + 1 + |name| && All(name, IsAlnum);
      var a := ConsumeAttributes(s, j);
      if a.Err? then
        Err(a.error)
      else
        var open := TagOpen(name, a.value.value);
        OpenShaped(name, a.value.value);
        var p := a.value.next;
        if StartsAt(s, p, "/>") then Ok(Scanned([open, TagClose(name)], p + 2))
        else Ok(Scanned([open], p + 1))
  }

  /** `consumeEndTag`, with the cursor on the `<` of `</`: the name, then one
      character skipped whatever it is. */
  function ConsumeEndTag(s: string, i: nat): (r: Result<Scanned<Token>>)
    ensures r.Ok? ==>
      && r.value.value.TagClose?
      && var name := r.value.value.name;
         var j := i + 2 + |name|;
         (j < |s| && s[i + 2..j] == name && All(name, IsAlnum) && !IsAlnum(s[j]) && r.value.next == j + 1)
    ensures r.Err? ==> r.error.Unterminated?
  {
    var n := ConsumeTagName(s, i + 2);
    if n.Err? then Err(n.error) else Ok(Scanned(TagClose(n.value.value), n.value.next + 1))
  }

  /** `consumeUntil(target, consumeTarget)`: the text up to the first
      occurrence of `t` or the end, and the cursor after `t` when it is
      consumed (by `|t|` even when `t` was not found). */
  function ConsumeUntil(s: string, i: nat, t: string, consumeTarget: bool): (r: Scanned<string>)
    ensures i >= |s| ==> r.value == [] && r.next == i + (if consumeTarget then |t| else 0)
    ensures i <= |s| ==>
      var j := i + |r.value|;
      && j <= |s|
      && s[i..j] == r.value
      && (j == |s| || StartsAt(s, j, t))
      && (forall k :: i <= k < j ==> !StartsAt(s, k, t))
      && r.next == j + (if consumeTarget then |t| else 0)
  {
    if i >= |s| then
      Scanned([], i + (if consumeTarget then |t| else 0))
    else
      var j := Find(s, i, t);
      Scanned(s[i..j], j + (if consumeTarget then |t| else 0))
  }

  /** `consumeText`: text up to the next `<` or the end, which stays unconsumed. */
  function ConsumeText(s: string, i: nat): (r: Scanned<Token>)
    requires i <= |s|
    ensures
      var j := r.next;
      && r.value.Text?
      && i <= j <= |s|
      && s[i..j] == r.value.value
      && '<' !in r.value.value
      && (j == |s| || s[j] == '<')
  {
    var u := ConsumeUntil(s, i, "<", false);
    FindCharAt(s, i, '<');
    Scanned(Text(u.value), u.next)
  }

  /** `consumeDoctype`, with the cursor on the `<` of `<!DOCTYPE`: the trimmed
      text up to the first `>`, and the cursor after that `>`. */
  function ConsumeDoctype(s: string, i: nat): (r: Scanned<Token>)
    ensures r.value.Doctype?
    ensures i + 9 <= |s| ==>
      var j := r.next - 1;
      && i + 9 <= j <= |s|
      && (j == |s| || s[j] == '>')
      && '>' !in s[i + 9..j]
      && r.value.value == Trim(s[i + 9..j])
    ensures i + 9 > |s| ==> r.value.value == [] && r.next == i + 10
  {
    var u := ConsumeUntil(s, i + 9, ">", true);
    var r := Scanned(Doctype(Trim(u.value)), u.next);
    if i + 9 <= |s| then
      FindCharAt(s, i + 9, '>');
      r
    else
      r
  }

  /** `consumeComment`, with the cursor on the `<` of `<!--`: the raw text up
      to the first `-->`. `consumeUntil` already steps over the `-->` and the
      method then skips three more characters, so the cursor lands six past
      the start of the `-->`. */
  function ConsumeComment(s: string, i: nat): (r: Scanned<Token>)
    ensures r.value.Comment?
    ensures i + 4 <= |s| ==>
      var j := i + 4 + |r.value.value|;
      && j <= |s|
      && s[i + 4..j] == r.value.value
      && (j == |s| || StartsAt(s, j, "-->"))
      && (forall k :: i + 4 <= k < j ==> !StartsAt(s, k, "-->"))
      && r.next == j + 6
    ensures i + 4 > |s| ==> r.value.value == [] && r.next == i + 10
  {
    var u := ConsumeUntil(s, i + 4, "-->", true);
    Scanned(Comment(u.value), u.next + 3)
  }

  /** The `doctype` test of `handleSpecialTag`: `slice(p + 2, p + 9)`
      lower-cased starts with "doctype". */
  predicate DoctypeAhead(s: string, i: nat) {
    i + 9 <= |s| && LowerAll(s[i + 2..i + 9]) == "doctype"
  }

  /** The comment test of `handleSpecialTag`: `slice(p + 2, p + 4) === '--'`. */
  predicate CommentAhead(s: string, i: nat) {
    i + 4 <= |s| && s[i + 2..i + 4] == "--"
  }

  /** `handleSpecialTag`, with the cursor on the `<` of `<!`. */
  function HandleSpecialTag(s: string, i: nat): (r: Result<Scanned<Token>>)
    ensures r.Ok? <==> DoctypeAhead(s, i) || CommentAhead(s, i)
    ensures r.Ok? ==> (r.value.value.Doctype? <==> DoctypeAhead(s, i))
    ensures r.Ok? ==> (r.value.value.Comment? <==> !DoctypeAhead(s, i))
    ensures r.Ok? ==> i + 10 <= r.value.next
    ensures r.Err? ==> r.error == Unexpected(i)
    ensures DoctypeAhead(s, i) ==> r == Ok(ConsumeDoctype(s, i))
    ensures !DoctypeAhead(s, i) && CommentAhead(s, i) ==> r == Ok(ConsumeComment(s, i))
  {
    if DoctypeAhead(s, i) then Ok(ConsumeDoctype(s, i))
    else if CommentAhead(s, i) then Ok(ConsumeComment(s, i))
    else Err(Unexpected(i))
  }

  /** `handleTag`, with the cursor on a `<`. A pair from a self-closing tag
      comes back as a two-element list, which `tokenize` flattens. */
  function HandleTag(s: string, i: nat): (r: Result<Scanned<seq<Token>>>)
    requires i < |s|
    ensures r.Ok? ==>
      var ts := r.value.value;
      && 1 <= |ts| <= 2
      && (|ts| == 2 ==> ts[0].TagOpen? && ts[1] == TagClose(ts[0].name))
      && i + |ts| < r.value.next
      && AllShaped(ts)
    ensures r.Err? && r.error.Unexpected? ==>
      r.error.at == i && i + 1 < |s| && s[i + 1] == '!' && !DoctypeAhead(s, i) && !CommentAhead(s, i)
  {
    if i + 1 < |s| && s[i + 1] == '!' then
      var t := HandleSpecialTag(s, i);
      if t.Err? then Err(t.error) else Ok(Scanned([t.value.value], t.value.next))
    else if i + 1 < |s| && s[i + 1] == '/' then
      var t := ConsumeEndTag(s, i);
      if t.Err? then Err(t.error) else Ok(Scanned([t.value.value], t.value.next))
    else
      ConsumeStartTag(s, i)
  }

  /** What one call of `getNextToken` gives: `null`, or a token or a pair
      together with the cursor after it. */
  datatype Step = Done | Emit(tokens: seq<Token>, next: nat)

  /** `getNextToken`: `null` at or past the end; otherwise whitespace is
      skipped and a tag or a text token is read. */
  function NextToken(s: string, i: nat): (r: Result<Step>)
    ensures r.Ok? && r.value.Done? <==> i >= |s|
    ensures r.Ok? && r.value.Emit? ==>
      1 <= |r.value.tokens| && i + |r.value.tokens| <= r.value.next
  {
    if i >= |s| then
      Ok(Done)
    else
      var j := SkipWhitespace(s, i);
      if j < |s| && s[j] == '<' then
        var h := HandleTag(s, j);
        if h.Err? then Err(h.error) else Ok(Emit(h.value.value, h.value.next))
      else
        var t := ConsumeText(s, j);
        Ok(Emit([t.value], t.next))
  }

  /** The loop of `tokenize`: tokens are collected until `getNextToken`
      returns `null`; an exception aborts the whole loop. */
  function Run(s: string, i: nat): (r: Result<seq<Token>>)
    ensures r.Ok? ==> i + |r.value| <= |s| || r.value == []
    decreases |s| - i
  {
    if i >= |s| then
      Ok([])
    else
      var st := NextToken(s, i);
      if st.Err? then
        Err(st.error)
      else if st.value.Done? then
        Ok([])
      else
        var rest := Run(s, st.value.next);
        if rest.Err? then rest else Ok(st.value.tokens + rest.value)
  }

  /** On an input without trailing whitespace, every step emits well-shaped
      tokens: a text step always finds a non-space character to start on. */
  lemma NextTokenShaped(s: string, i: nat)
    requires NoTrailingSpace(s)
    ensures
      var r := NextToken(s, i);
      r.Ok? && r.value.Emit? ==> AllShaped(r.value.tokens)
  {
  }

  /** On an input without trailing whitespace, the loop emits only
      well-shaped tokens. */
  lemma {:induction false} RunShaped(s: string, i: nat)
    requires NoTrailingSpace(s)
    ensures Run(s, i).Ok? ==> AllShaped(Run(s, i).value)
    decreases |s| - i
  {
    if i < |s| {
      var st := NextToken(s, i);
      NextTokenShaped(s, i);
      if st.Ok? && st.value.Emit? {
        RunShaped(s, st.value.next);
      }
    }
  }

  /** `new HTMLTokenizer(html).tokenize()`: the input is trimmed once. */
  function Tokenize(html: string): (r: Result<seq<Token>>)
    ensures r.Ok? ==> |r.value| <= |html|
    ensures r.Ok? ==> AllShaped(r.value)
    ensures r.Ok? ==> forall t :: t in r.value && t.Text? ==>
      t.value != [] && !IsSpace(t.value[0]) && '<' !in t.value
  {
    var h := Trim(html);
    var r := Run(h, 0);
    RunShaped(h, 0);
    assert r.Ok? ==> forall t :: t in r.value ==> WellShaped(t);
    r
  }
}
