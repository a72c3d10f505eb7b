/** What single scanning steps of the `.mjs` tokenizer do on inputs of a
    given form. */
module TokenizerFacts {
  import opened Chars
  import opened Tokens
  import opened Outcomes
  import opened Tokenizer

  /** `consumeAttribute` in full: a maximal name, one character skipped
      whatever it is, then the quoted text when that character is followed by
      `"`, and the empty value otherwise. */
  lemma AttributeScan(s: string, i: nat)
    ensures
      var r := ConsumeAttribute(s, i);
      r.Ok? ==>
        var a := r.value.value;
        var j := i + |a.name|;
        && j < |s|
        && s[i..j] == a.name
        && !IsNameChar(s[j])
        && (if j + 1 < |s| && s[j + 1] == '"' then
              var q := j + 2 + |a.value|;
              q < |s| && s[j + 2..q] == a.value && s[q] == '"' && r.value.next == q + 1
            else
              a.value == [] && r.value.next == j + 1)
  {
  }

  /** `consumeStartTag` in full: the name is the maximal `[a-zA-Z0-9]` run
      after the `<`; the attributes end at the end of the input, a `>` or a
      `/`; a close token of the same name follows exactly when `/>` is there,
      and otherwise one character is skipped. */
  lemma StartTagScan(s: string, i: nat)
    ensures
      var r := ConsumeStartTag(s, i);
      r.Ok? ==>
        var n := ConsumeTagName(s, i + 1);
        && n.Ok?
        && r.value.value[0].name == n.value.value
        && var a := ConsumeAttributes(s, n.value.next);
           && a.Ok?
           && r.value.value[0].attributes == a.value.value
           && (StartsAt(s, a.value.next, "/>") <==> |r.value.value| == 2)
           && r.value.next == a.value.next + |r.value.value|
  {
  }

  /** A body in which no `-->` starts, not even one that runs into the
      terminator that follows it. */
  predicate NoTerminator(body: string) {
    forall k :: 0 <= k < |body| ==> !StartsAt(body + "-->", k, "-->")
  }

  /** A body without `-` holds no `-->`. */
  lemma NoDashNoTerminator(body: string)
    requires '-' !in body
    ensures NoTerminator(body)
  {
    forall k | 0 <= k < |body|
      ensures !StartsAt(body + "-->", k, "-->")
    {
      assert (body + "-->")[k..k + 3][0] == body[k] != '-';
    }
  }

  /** On `<!--body-->` the comment value is exactly `body`, untrimmed, and the
      cursor moves six characters past the start of the `-->`. */
  lemma CommentScan(s: string, i: nat, body: string)
    requires StartsAt(s, i, "<!--" + body + "-->")
    requires NoTerminator(body)
    ensures ConsumeComment(s, i) == Scanned(Comment(body), i + |body| + 10)
  {
    var w := "<!--" + body + "-->";
    var v := body + "-->";
    assert w[4..] == v;
    StartsAtSuffix(s, i, w, 4);
    StartsAtSuffix(s, i + 4, v, |body|);
    assert v[|body|..] == "-->";
    NoneBefore(s, i + 4, v, |body|, "-->");
    FindIs(s, i + 4, "-->", i + 4 + |body|);
    StartsAtPrefix(s, i + 4, v, |body|);
    assert v[..|body|] == body;
  }

  /** `consumeComment` with the cursor placed as its own comments describe:
      `consumeUntil` already steps over the `-->`, and nothing more is
      skipped. Same value as the method as written, three characters less. */
  function ConsumeCommentIntended(s: string, i: nat): (r: Scanned<Token>)
    ensures r.value == ConsumeComment(s, i).value
    ensures r.next + 3 == ConsumeComment(s, i).next
  {
    var u := ConsumeUntil(s, i + 4, "-->", true);
    Scanned(Comment(u.value), u.next)
  }

  /** With the intended cursor, `<!--body-->` is read back as `body` and the
      cursor lands right after the comment, at `e`. */
  lemma CommentIntendedScan(s: string, i: nat, body: string, e: nat)
    requires StartsAt(s, i, "<!--" + body + "-->") && NoTerminator(body)
    requires e == i + |"<!--" + body + "-->"|
    ensures ConsumeCommentIntended(s, i) == Scanned(Comment(body), e)
    ensures e <= |s|
  {
    CommentScan(s, i, body);
  }

  /** As written, the cursor after `<!--body-->` lands three characters past
      the end of the comment, at `e + 3`, so whatever those three characters
      are never reaches the loop. */
  lemma CommentOvershoots(s: string, i: nat, body: string, e: nat)
    requires StartsAt(s, i, "<!--" + body + "-->") && NoTerminator(body)
    requires e == i + |"<!--" + body + "-->"|
    ensures ConsumeComment(s, i) == Scanned(Comment(body), e + 3)
    ensures ConsumeComment(s, i).next != ConsumeCommentIntended(s, i).next
  {
    CommentScan(s, i, body);
  }

  /** The doctype test is a case-insensitive match of the seven characters
      after `<!`: each is the small or the capital letter of "doctype". */
  lemma DoctypeAheadIff(s: string, i: nat)
    ensures DoctypeAhead(s, i) <==>
      && i + 9 <= |s|
      && forall k :: 0 <= k < 7 ==> s[i + 2 + k] == "doctype"[k] || s[i + 2 + k] == "DOCTYPE"[k]
  {
    if i + 9 <= |s| {
      var w := s[i + 2..i + 9];
      var l := LowerAll(w);
      forall k | 0 <= k < 7
        ensures l[k] == "doctype"[k] <==> s[i + 2 + k] == "doctype"[k] || s[i + 2 + k] == "DOCTYPE"[k]
      {
        assert w[k] == s[i + 2 + k];
        LowerAsciiLetter(w[k], "doctype"[k]);
        assert "DOCTYPE"[k] as int == "doctype"[k] as int - 32;
      }
      assert l == "doctype" <==> forall k :: 0 <= k < 7 ==> l[k] == "doctype"[k];
    }
  }

  /** At `<!` followed by a doctype keyword the next token is the scanned
      doctype. */
  lemma DoctypeDispatch(s: string, i: nat)
    requires DoctypeAhead(s, i) && s[i] == '<' && s[i + 1] == '!'
    ensures
      var d := ConsumeDoctype(s, i);
      NextToken(s, i) == Ok(Emit([d.value], d.next))
  {
    TagAt(s, i);
  }

  /** `<!DOCTYPE` passes the doctype test. */
  lemma DoctypeKeyword(s: string, i: nat, rest: string)
    requires StartsAt(s, i, "<!DOCTYPE" + rest)
    ensures DoctypeAhead(s, i) && s[i] == '<' && s[i + 1] == '!'
    ensures StartsAt(s, i + 9, rest)
  {
    var w := "<!DOCTYPE" + rest;
    StartsAtFirst(s, i, "<!DOCTYPE", rest);
    CharsAt(s, i, "<!DOCTYPE");
    DoctypeAheadIff(s, i);
    assert w[9..] == rest;
    StartsAtSuffix(s, i, w, 9);
  }

  /** The doctype value is the trimmed text up to the first `>`, and the
      cursor `e` ends just past that `>`. */
  lemma DoctypeBody(s: string, i: nat, body: string, e: nat)
    requires StartsAt(s, i + 9, body + ">") && '>' !in body && e == i + |body| + 10
    ensures ConsumeDoctype(s, i) == Scanned(Doctype(Trim(body)), e)
  {
    FirstCloseAt(s, i + 9, body);
    DoctypeClosed(s, i, body, i + 9 + |body|, e);
  }

  /** The doctype scan when its text `body` ends at the first `>`, at `m`. */
  lemma DoctypeClosed(s: string, i: nat, body: string, m: nat, e: nat)
    requires i + 9 <= m < |s| && s[m] == '>' && s[i + 9..m] == body && e == m + 1
    requires forall k :: i + 9 <= k < m ==> s[k] != '>'
    ensures ConsumeDoctype(s, i) == Scanned(Doctype(Trim(body)), e)
  {
    FirstCharUnique(s, i + 9, '>', ConsumeDoctype(s, i).next - 1, m);
  }

  /** Where `body>` sits at `q` and `body` holds no `>`, the first `>` from
      `q` closes `body`. */
  lemma FirstCloseAt(s: string, q: nat, body: string)
    requires StartsAt(s, q, body + ">") && '>' !in body
    ensures q + |body| < |s| && s[q + |body|] == '>' && s[q..q + |body|] == body
    ensures forall k :: q <= k < q + |body| ==> s[k] != '>'
  {
    CharsAt(s, q, body + ">");
    forall k | q <= k < q + |body|
      ensures s[k] != '>'
    {
      assert s[k] == (body + ">")[k - q] == body[k - q];
    }
    assert s[q + |body|] == (body + ">")[|body|];
    StartsAtPrefix(s, q, body + ">", |body|);
    assert (body + ">")[..|body|] == body;
  }

  /** `<!DOCTYPE body>` with no `>` inside `body` is one doctype token
      holding `body` trimmed, and the cursor `e` ends just past the `>`. */
  lemma DoctypeScan(s: string, i: nat, body: string, e: nat)
    requires StartsAt(s, i, "<!DOCTYPE" + body + ">") && '>' !in body && e == i + |body| + 10
    ensures DoctypeAhead(s, i)
    ensures NextToken(s, i) == Ok(Emit([Doctype(Trim(body))], e))
  {
    assert "<!DOCTYPE" + body + ">" == "<!DOCTYPE" + (body + ">");
    DoctypeKeyword(s, i, body + ">");
    DoctypeBody(s, i, body, e);
    DoctypeDispatch(s, i);
  }

  /** `<!--` is not a doctype: its third character is `-`. */
  lemma CommentNotDoctype(s: string, i: nat)
    requires i + 4 <= |s| && s[i + 2] == '-'
    ensures !DoctypeAhead(s, i)
  {
    if i + 9 <= |s| {
      assert LowerAll(s[i + 2..i + 9])[0] == '-';
    }
  }

  /** At `<!--` the special-tag handler scans a comment. */
  lemma SpecialComment(s: string, i: nat)
    requires StartsAt(s, i, "<!--")
    ensures HandleSpecialTag(s, i) == Ok(ConsumeComment(s, i))
  {
    CharsAt(s, i, "<!--");
    CommentNotDoctype(s, i);
    assert CommentAhead(s, i) by {
      assert s[i + 2..i + 4] == s[i..i + 4][2..4];
    }
  }

  /** At `<!--` the special-tag path scans a comment. */
  lemma CommentHandled(s: string, i: nat)
    requires StartsAt(s, i, "<!--")
    ensures
      var c := ConsumeComment(s, i);
      HandleTag(s, i) == Ok(Scanned([c.value], c.next))
  {
    SpecialComment(s, i);
    CharAt(s, i, "<!--", 1);
  }

  /** At `<!--` the next token is the scanned comment. */
  lemma CommentDispatch(s: string, i: nat)
    requires StartsAt(s, i, "<!--")
    ensures
      var c := ConsumeComment(s, i);
      NextToken(s, i) == Ok(Emit([c.value], c.next))
  {
    CommentHandled(s, i);
    CharAt(s, i, "<!--", 0);
    TagAt(s, i);
  }

  /** The comment token of `<!--body-->` holds exactly the raw text between
      the delimiters. */
  lemma CommentIsRaw(s: string, i: nat, body: string)
    requires StartsAt(s, i, "<!--" + body + "-->")
    requires NoTerminator(body)
    ensures NextToken(s, i) == Ok(Emit([Comment(body)], i + |body| + 10))
  {
    StartsAtFirst(s, i, "<!--" + body, "-->");
    StartsAtFirst(s, i, "<!--", body);
    CommentDispatch(s, i);
    CommentScan(s, i, body);
  }

  /** The loop of `tokenize` puts the tokens of one step in front of those
      of the remaining steps. */
  lemma RunStep(s: string, i: nat, ts: seq<Token>, j: nat, rest: seq<Token>)
    requires i < |s| && NextToken(s, i) == Ok(Emit(ts, j)) && Run(s, j) == Ok(rest)
    ensures Run(s, i) == Ok(ts + rest)
  {
  }

  /** A document that is one comment is tokenized to that comment. */
  lemma LoneComment(body: string)
    requires NoTerminator(body)
    ensures Run("<!--" + body + "-->", 0) == Ok([Comment(body)])
  {
    var s := "<!--" + body + "-->";
    var n := |body| + 10;
    assert StartsAt(s, 0, s);
    CommentIsRaw(s, 0, body);
    assert Run(s, n) == Ok([]);
    RunStep(s, 0, [Comment(body)], n, []);
    assert [Comment(body)] + [] == [Comment(body)];
  }

  /** `<!-- note -->` tokenizes to the single comment `" note "`, spaces
      included. */
  lemma CommentKeepsSpaces()
    ensures Tokenize("<!-- note -->") == Ok([Comment(" note ")])
  {
    var s := "<!-- note -->";
    assert |s| == 13 && s[0] == '<' && s[12] == '>';
    TrimKeeps(s);
    assert s == "<!--" + " note " + "-->";
    NoDashNoTerminator(" note ");
    LoneComment(" note ");
  }

  /** A name run that a character outside `[a-zA-Z0-9]` ends. */
  lemma TagNameAt(s: string, i: nat, name: string, c: char)
    requires StartsAt(s, i, name + [c])
    requires All(name, IsAlnum) && !IsAlnum(c)
    ensures ConsumeTagName(s, i) == Ok(Scanned(name, i + |name|))
  {
    SpanAt(s, i, IsAlnum, name, c);
  }

  /** The attribute loop stops at once on a `/` or a `>`. */
  lemma NoAttributes(s: string, i: nat)
    requires i < |s| && (s[i] == '/' || s[i] == '>')
    ensures ConsumeAttributes(s, i) == Ok(Scanned([], i))
  {
    assert SkipWhitespace(s, i) == i;
  }

  /** A `[a-zA-Z0-9-]` run ended by `=` is read as the attribute name. */
  lemma AttributeNameAt(s: string, j: nat, name: string)
    requires Spelled(s, j, name) && j + |name| < |s| && s[j + |name|] == '='
    requires All(name, IsNameChar)
    ensures ConsumeAttributeName(s, j) == Ok(Scanned(name, j + |name|))
  {
    forall k | j <= k < j + |name|
      ensures IsNameChar(s[k])
    {
      assert s[j + (k - j)] == name[k - j];
    }
    SpanIs(s, j, IsNameChar, j + |name|);
    SpelledStarts(s, j, name);
  }

  /** `"value"` with no `"` inside `value` is read as `value`, and the cursor
      moves past the closing quote. */
  lemma QuotedValueAt(s: string, j: nat, value: string)
    requires Spelled(s, j + 1, value) && j + 1 + |value| < |s| && s[j + 1 + |value|] == '"'
    requires '"' !in value
    ensures ConsumeQuotedAttributeValue(s, j) == Ok(Scanned(value, j + 2 + |value|))
  {
    var q := j + 1;
    forall k | q <= k < q + |value|
      ensures s[k] != '"'
    {
      assert s[q + (k - q)] == value[k - q];
    }
    IndexOfIs(s, q, '"', q + |value|);
    SpelledStarts(s, q, value);
  }

  /** The character after the space of ` name="value"` starts the name or
      is the `=`, so it is neither whitespace nor the end of the tag. */
  lemma AttributeStart(s: string, i: nat, a: Attribute)
    requires AttrShaped(a) && AttrLaid(s, i, a)
    ensures i + 1 < |s| && s[i] == ' ' && SkipWhitespace(s, i) == i + 1
    ensures s[i + 1] != '/' && s[i + 1] != '>' && !IsSpace(s[i + 1])
  {
    var c := s[i + 1];
    if a.name != [] {
      assert c == s[i + 1 + 0] == a.name[0];
      assert IsNameChar(c);
    }
    assert !IsSpace(c);
    SpanIs(s, i, IsSpace, i + 1);
  }

  /** One pass of the attribute loop at `i` goes on and reads `a`, leaving
      the cursor at `k`: no `>` at `i`, the whitespace skipped ends at
      `i + 1`, no `/` or `>` there, and `consumeAttribute` gives `a`. */
  predicate AttributeAt(s: string, i: nat, a: Attribute, k: nat) {
    && i + 1 < |s| && s[i] != '>' && SkipWhitespace(s, i) == i + 1
    && s[i + 1] != '/' && s[i + 1] != '>'
    && ConsumeAttribute(s, i + 1) == Ok(Scanned(a, k))
  }

  /** One ` name="value"` in front of the attribute loop's cursor: the space
      is skipped, the loop goes on, and `consumeAttribute` reads back exactly
      that attribute, leaving the cursor after the closing quote. */
  lemma AttributeRoundTrip(s: string, i: nat, a: Attribute)
    requires AttrShaped(a) && AttrLaid(s, i, a)
    ensures AttributeAt(s, i, a, i + AttrWidth(a))
  {
    var j := i + 2 + |a.name|;
    AttributeStart(s, i, a);
    AttributeNameAt(s, i + 1, a.name);
    QuotedValueAt(s, j, a.value);
    AttributeFrom(s, i + 1, a.name, a.value, j + 2 + |a.value|);
  }

  /** `consumeAttribute` put together from a scanned name, the skipped
      character and a scanned quoted value. */
  lemma AttributeFrom(s: string, j: nat, name: string, value: string, k: nat)
    requires ConsumeAttributeName(s, j) == Ok(Scanned(name, j + |name|))
    requires j + |name| + 1 < |s| && s[j + |name| + 1] == '"'
    requires ConsumeQuotedAttributeValue(s, j + |name| + 1) == Ok(Scanned(value, k))
    ensures ConsumeAttribute(s, j) == Ok(Scanned(Attribute(name, value), k))
  {
  }

  /** The attribute loop reads back the list it was written from: on
      ` n1="v1" … nk="vk">` it yields exactly those attributes and stops on
      the `>`. */
  lemma AttributesRoundTrip(s: string, i: nat, attrs: seq<Attribute>, e: nat)
    requires AttrsShaped(attrs)
    requires StartsAt(s, i, AttrsText(attrs) + ">") && e == i + |AttrsText(attrs)|
    ensures ConsumeAttributes(s, i) == Ok(Scanned(attrs, e))
  {
    AttrsLaidOut(s, i, attrs);
    AttrsTextWidth(attrs);
    AttributesRead(s, i, attrs, e);
  }

  /** The attribute loop over the layout of an attribute list, which ends
      at `e`. */
  lemma {:induction false} AttributesRead(s: string, i: nat, attrs: seq<Attribute>, e: nat)
    requires AttrsShaped(attrs) && AttrsLaid(s, i, attrs) && e == i + AttrsWidth(attrs)
    ensures ConsumeAttributes(s, i) == Ok(Scanned(attrs, e))
    decreases |attrs|
  {
    if attrs != [] {
      var k := i + AttrWidth(attrs[0]);
      AttrsTail(attrs);
      AttrsWidthStep(i, k, attrs);
      AttributeRoundTrip(s, i, attrs[0]);
      AttributesRead(s, k, attrs[1..], e);
      AttributesFirst(s, i, attrs, k, e);
    }
  }

  /** The attribute loop over a list whose first attribute it reads at `i`
      and whose tail it reads from `k`. */
  lemma AttributesFirst(s: string, i: nat, attrs: seq<Attribute>, k: nat, e: nat)
    requires attrs != [] && AttributeAt(s, i, attrs[0], k)
    requires ConsumeAttributes(s, k) == Ok(Scanned(attrs[1..], e))
    ensures ConsumeAttributes(s, i) == Ok(Scanned(attrs, e))
  {
    AttrsSplit(attrs);
    AttributesStep(s, i, attrs[0], k, attrs[1..], e);
  }

  /** One pass of the attribute loop: an attribute in front of the rest of
      the list. */
  lemma AttributesStep(s: string, i: nat, a: Attribute, k: nat, rest: seq<Attribute>, e: nat)
    requires AttributeAt(s, i, a, k)
    requires ConsumeAttributes(s, k) == Ok(Scanned(rest, e))
    ensures ConsumeAttributes(s, i) == Ok(Scanned([a] + rest, e))
  {
  }

  /** A start tag reads back the name and attribute list it was written
      from: `<name n1="v1" … nk="vk">` is one open token carrying them, and
      the cursor `e` ends just past the `>`. */
  lemma StartTagRoundTrip(s: string, i: nat, name: string, attrs: seq<Attribute>, e: nat)
    requires All(name, IsAlnum) && AttrsShaped(attrs)
    requires StartsAt(s, i, "<" + name + AttrsText(attrs) + ">")
    requires e == i + |name| + |AttrsText(attrs)| + 2
    ensures ConsumeStartTag(s, i) == Ok(Scanned([TagOpen(name, attrs)], e))
  {
    var rest := AttrsText(attrs) + ">";
    assert "<" + name + AttrsText(attrs) + ">" == "<" + name + rest;
    if attrs != [] {
      assert rest[0] == AttrText(attrs[0])[0] == ' ';
    }
    AttrsTextWidth(attrs);
    StartTagName(s, i, name, rest);
    AttrsLaidOut(s, i + 1 + |name|, attrs);
    StartTagLaid(s, i, name, attrs, e);
  }

  /** A start tag whose name has been read and whose attributes are laid
      out up to the closing `>`. */
  lemma StartTagLaid(s: string, i: nat, name: string, attrs: seq<Attribute>, e: nat)
    requires ConsumeTagName(s, i + 1) == Ok(Scanned(name, i + 1 + |name|))
    requires AttrsShaped(attrs) && AttrsLaid(s, i + 1 + |name|, attrs)
    requires e == i + |name| + AttrsWidth(attrs) + 2
    ensures ConsumeStartTag(s, i) == Ok(Scanned([TagOpen(name, attrs)], e))
  {
    var p := i + 1 + |name| + AttrsWidth(attrs);
    AttributesUpTo(s, i + 1 + |name|, attrs, p);
    StartTagOpen(s, i, name, attrs, p, e);
  }

  /** The attribute loop over the layout of an attribute list stops on the
      closing `>`. */
  lemma AttributesUpTo(s: string, j: nat, attrs: seq<Attribute>, p: nat)
    requires AttrsShaped(attrs) && AttrsLaid(s, j, attrs) && p == j + AttrsWidth(attrs)
    ensures ConsumeAttributes(s, j) == Ok(Scanned(attrs, p))
    ensures p < |s| && s[p] == '>'
  {
    AttributesRead(s, j, attrs, p);
    AttrsLaidEnd(s, j, attrs);
  }

  /** A start tag whose name and attributes have been read and whose next
      character, at `p`, is `>`. */
  lemma StartTagOpen(s: string, i: nat, name: string, attrs: seq<Attribute>, p: nat, e: nat)
    requires ConsumeTagName(s, i + 1) == Ok(Scanned(name, i + 1 + |name|))
    requires ConsumeAttributes(s, i + 1 + |name|) == Ok(Scanned(attrs, p))
    requires p < |s| && s[p] == '>' && e == p + 1
    ensures ConsumeStartTag(s, i) == Ok(Scanned([TagOpen(name, attrs)], e))
  {
    NotStartsAt(s, p, "/>");
    StartTagFrom(s, i, name, i + 1 + |name|, attrs, p);
  }

  /** The tag name of `<name…`, when `name` is followed by `c`. */
  lemma StartTagName(s: string, i: nat, name: string, rest: string)
    requires StartsAt(s, i, "<" + name + rest) && rest != []
    requires All(name, IsAlnum) && !IsAlnum(rest[0])
    ensures ConsumeTagName(s, i + 1) == Ok(Scanned(name, i + 1 + |name|))
    ensures StartsAt(s, i + 1 + |name|, rest) && s[i + 1 + |name|] == rest[0]
  {
    var w := "<" + name + rest;
    StartsAtSuffix(s, i, w, 1 + |name|);
    assert w[1 + |name|..] == rest;
    StartsAtSuffix(s, i, w, 1);
    assert w[1..] == name + rest;
    StartsAtPrefix(s, i + 1, name + rest, |name| + 1);
    assert (name + rest)[..|name| + 1] == name + [rest[0]];
    TagNameAt(s, i + 1, name, rest[0]);
    CharsAt(s, i + 1, name + [rest[0]]);
  }

  /** A start tag put together from a scanned name and scanned attributes. */
  lemma StartTagFrom(s: string, i: nat, name: string, j: nat, attrs: seq<Attribute>, p: nat)
    requires ConsumeTagName(s, i + 1) == Ok(Scanned(name, j))
    requires ConsumeAttributes(s, j) == Ok(Scanned(attrs, p))
    ensures ConsumeStartTag(s, i) ==
      if StartsAt(s, p, "/>") then Ok(Scanned([TagOpen(name, attrs), TagClose(name)], p + 2))
      else Ok(Scanned([TagOpen(name, attrs)], p + 1))
  {
  }

  /** `<name/>` yields the open token immediately followed by the close token
      of the same name, and the cursor moves past the `/>`. */
  lemma SelfClosingPair(s: string, i: nat, name: string)
    requires StartsAt(s, i, "<" + name + "/>")
    requires All(name, IsAlnum)
    ensures ConsumeStartTag(s, i) == Ok(Scanned([TagOpen(name, []), TagClose(name)], i + |name| + 3))
  {
    var j := i + 1 + |name|;
    StartTagName(s, i, name, "/>");
    NoAttributes(s, j);
    StartTagFrom(s, i, name, j, [], j);
  }

  /** `<name>` yields one open token without attributes, and the cursor moves
      past the `>`. */
  lemma PlainStartTag(s: string, i: nat, name: string)
    requires StartsAt(s, i, "<" + name + ">")
    requires All(name, IsAlnum)
    ensures ConsumeStartTag(s, i) == Ok(Scanned([TagOpen(name, [])], i + |name| + 2))
  {
    var j := i + 1 + |name|;
    StartTagName(s, i, name, ">");
    NoAttributes(s, j);
    assert !StartsAt(s, j, "/>");
    StartTagFrom(s, i, name, j, [], j);
  }

  /** A `<` followed by neither `!` nor `/` starts a start tag. */
  lemma StartTagDispatch(s: string, i: nat)
    requires i + 1 < |s| && s[i] == '<' && s[i + 1] != '!' && s[i + 1] != '/'
    ensures HandleTag(s, i) == ConsumeStartTag(s, i)
  {
  }

  /** `</` starts an end tag. */
  lemma EndTagDispatch(s: string, i: nat)
    requires i + 1 < |s| && s[i] == '<' && s[i + 1] == '/'
    ensures
      var t := ConsumeEndTag(s, i);
      HandleTag(s, i) == if t.Ok? then Ok(Scanned([t.value.value], t.value.next)) else Err(t.error)
  {
  }

  /** `</name` followed by any character outside `[a-zA-Z0-9]` closes `name`
      and skips that character, whether or not it is `>`. */
  lemma EndTagSkipsOne(s: string, i: nat, name: string, c: char)
    requires StartsAt(s, i, "</" + name + [c])
    requires All(name, IsAlnum) && !IsAlnum(c)
    ensures ConsumeEndTag(s, i) == Ok(Scanned(TagClose(name), i + |name| + 3))
  {
    var w := "</" + name + [c];
    StartsAtSuffix(s, i, w, 2);
    assert w[2..] == name + [c];
    TagNameAt(s, i + 2, name, c);
  }

  /** Text before a `<` is one text token that ends at that `<`. */
  lemma TextUpToTag(s: string, i: nat, text: string)
    requires StartsAt(s, i, text + "<")
    requires text != [] && !IsSpace(text[0]) && '<' !in text
    ensures NextToken(s, i) == Ok(Emit([Text(text)], i + |text|))
  {
    var w := text + "<";
    var j := i + |text|;
    CharsAt(s, i, w);
    assert s[i] == text[0];
    assert SkipWhitespace(s, i) == i;
    assert s[j] == w[|text|] == '<';
    assert forall k :: i <= k < j ==> s[k] != '<' by {
      forall k | i <= k < j
        ensures s[k] != '<'
      {
        assert s[k] == w[k - i] == text[k - i];
      }
    }
    IndexOfIs(s, i, '<', j);
    FindChar(s, i, '<');
    StartsAtPrefix(s, i, w, |text|);
    assert w[..|text|] == text;
  }

  /** Text that runs to the end of the input without a `<` is one text
      token that ends the input. */
  lemma TextToEnd(s: string, i: nat, text: string)
    requires i <= |s| && s[i..] == text
    requires text != [] && !IsSpace(text[0]) && '<' !in text
    ensures NextToken(s, i) == Ok(Emit([Text(text)], |s|))
  {
    assert s[i] == text[0];
    assert SkipWhitespace(s, i) == i;
    var t := ConsumeText(s, i);
    var j := t.next;
    assert j == |s|;
    assert t.value.value == s[i..j] == text;
  }

  /** With the cursor on a `<`, a step is whatever `handleTag` gives. */
  lemma TagAt(s: string, i: nat)
    requires i < |s| && s[i] == '<'
    ensures
      var h := HandleTag(s, i);
      NextToken(s, i) == if h.Err? then Err(h.error) else Ok(Emit(h.value.value, h.value.next))
  {
    assert SkipWhitespace(s, i) == i;
  }

  /** `<name>` with a non-empty alphanumeric name is one open tag without
      attributes. */
  lemma OpenStep(s: string, i: nat, name: string)
    requires StartsAt(s, i, "<" + name + ">")
    requires name != [] && All(name, IsAlnum)
    ensures NextToken(s, i) == Ok(Emit([TagOpen(name, [])], i + |name| + 2))
  {
    var w := "<" + name + ">";
    CharAt(s, i, w, 0);
    CharAt(s, i, w, 1);
    assert w[1] == name[0] && IsAlnum(name[0]);
    TagAt(s, i);
    StartTagDispatch(s, i);
    PlainStartTag(s, i, name);
  }

  /** `</name>` with an alphanumeric name is one close tag. */
  lemma CloseStep(s: string, i: nat, name: string)
    requires StartsAt(s, i, "</" + name + ">")
    requires All(name, IsAlnum)
    ensures NextToken(s, i) == Ok(Emit([TagClose(name)], i + |name| + 3))
  {
    var w := "</" + name + ">";
    CharAt(s, i, w, 0);
    CharAt(s, i, w, 1);
    assert "</" + name + [('>')] == "</" + name + ">";
    TagAt(s, i);
    EndTagDispatch(s, i);
    EndTagSkipsOne(s, i, name, '>');
  }

  /** `<!` followed by neither a case-insensitive `doctype` nor `--` is an
      error at the position of the `<`. */
  lemma UnknownBangFails(s: string, i: nat)
    requires i + 1 < |s| && s[i] == '<' && s[i + 1] == '!'
    requires !DoctypeAhead(s, i) && !CommentAhead(s, i)
    ensures NextToken(s, i) == Err(Unexpected(i))
  {
  }

  /** Whitespace at the end of the input would yield an empty text token:
      `getNextToken` skips it and then reads text at the end. The initial
      `trim` is what keeps this from happening. */
  lemma TrailingSpaceWouldGiveEmptyText(s: string, i: nat)
    requires i < |s| && forall k :: i <= k < |s| ==> IsSpace(s[k])
    ensures NextToken(s, i) == Ok(Emit([Text([])], |s|))
  {
    SpanIs(s, i, IsSpace, |s|);
  }

  /** In `<a b/>` the `/` is the character skipped after the attribute name,
      so the tag is not self-closing: one open token comes out. */
  lemma SlashAfterAttribute()
    ensures ConsumeStartTag("<a b/>", 0) == Ok(Scanned([TagOpen("a", [Attribute("b", [])])], 6))
  {
    var s := "<a b/>";
    assert Span(s, 1, IsAlnum) == 2;
    assert s[1..2] == "a" && s[3..4] == "b";
    assert SkipWhitespace(s, 2) == 3;
    assert Span(s, 3, IsNameChar) == 4;
    assert ConsumeAttribute(s, 3) == Ok(Scanned(Attribute("b", []), 5));
    NoAttributes(s, 5);
    assert [Attribute("b", [])] + [] == [Attribute("b", [])];
    assert ConsumeAttributes(s, 2) == Ok(Scanned([Attribute("b", [])], 5));
    StartTagFrom(s, 0, "a", 2, [Attribute("b", [])], 5);
  }
}

/** Whole documents run through the `.mjs` tokenizer. */
module TokenizerExamples {
  import opened Chars
  import opened Outcomes
  import opened Tokens
  import opened Tokenizer
  import opened TokenizerFacts

  /** A step that reaches the end of the input ends the loop with its tokens. */
  lemma LastStep(s: string, i: nat, ts: seq<Token>)
    requires i < |s| && NextToken(s, i) == Ok(Emit(ts, |s|))
    ensures Run(s, i) == Ok(ts)
  {
    assert Run(s, |s|) == Ok([]);
    assert ts + [] == ts;
    RunStep(s, i, ts, |s|, []);
  }

  /** A step that emits one token puts it in front of the rest of the loop. */
  lemma OneRun(s: string, i: nat, t: Token, j: nat, rest: seq<Token>)
    requires i < |s| && NextToken(s, i) == Ok(Emit([t], j)) && Run(s, j) == Ok(rest)
    ensures Run(s, i) == Ok([t] + rest)
  {
    RunStep(s, i, [t], j, rest);
  }

  /** The loop over an open tag that ends the input. */
  lemma LastOpenRun(s: string, i: nat, name: string)
    requires name != [] && All(name, IsAlnum)
    requires StartsAt(s, i, "<" + name + ">") && |s| == i + |name| + 2
    ensures Run(s, i) == Ok([TagOpen(name, [])])
  {
    OpenStep(s, i, name);
    LastStep(s, i, [TagOpen(name, [])]);
  }

  /** The loop over `<!--body-->` and whatever comes after the three
      characters it skips. */
  lemma CommentRun(s: string, body: string, rest: seq<Token>)
    requires StartsAt(s, 0, "<!--" + body + "-->") && NoTerminator(body)
    requires Run(s, |body| + 10) == Ok(rest)
    ensures Run(s, 0) == Ok([Comment(body)] + rest)
  {
    CommentIsRaw(s, 0, body);
    OneRun(s, 0, Comment(body), |body| + 10, rest);
  }

  /** The loop over `<!DOCTYPE body>` and whatever follows it. */
  lemma DoctypeRun(s: string, body: string, rest: seq<Token>)
    requires StartsAt(s, 0, "<!DOCTYPE" + body + ">") && '>' !in body
    requires Run(s, |body| + 10) == Ok(rest)
    ensures Run(s, 0) == Ok([Doctype(Trim(body))] + rest)
  {
    DoctypeScan(s, 0, body, |body| + 10);
    OneRun(s, 0, Doctype(Trim(body)), |body| + 10, rest);
  }

  /** Trimming ` html ` leaves `html`. */
  lemma TrimHtml()
    ensures Trim(" html ") == "html"
  {
    assert Span(" html ", 0, IsSpace) == 1;
    assert SpanBack(" html ", 6, IsSpace) == 5;
  }

  /** A doctype is trimmed: `<!DOCTYPE html ><p>` gives the doctype `html`
      and then the paragraph. */
  lemma DoctypeTrimmed()
    ensures Tokenize("<!DOCTYPE html ><p>") == Ok([Doctype("html"), TagOpen("p", [])])
  {
    var s := "<!DOCTYPE html ><p>";
    TrimKeeps(s);
    DoctypeHtmlRun(s);
    TrimHtml();
    assert [Doctype("html")] + [TagOpen("p", [])] == [Doctype("html"), TagOpen("p", [])];
  }

  /** The loop over `<!DOCTYPE html ><p>` from its start. */
  lemma DoctypeHtmlRun(s: string)
    requires s == "<!DOCTYPE html ><p>"
    ensures Run(s, 0) == Ok([Doctype(Trim(" html "))] + [TagOpen("p", [])])
  {
    assert StartsAt(s, 0, "<!DOCTYPE" + " html " + ">");
    ParagraphAt16(s);
    DoctypeRun(s, " html ", [TagOpen("p", [])]);
  }

  /** The loop over the `<p>` that ends `<!DOCTYPE html ><p>`. */
  lemma ParagraphAt16(s: string)
    requires s == "<!DOCTYPE html ><p>"
    ensures Run(s, 16) == Ok([TagOpen("p", [])])
  {
    assert StartsAt(s, 16, "<" + "p" + ">");
    LastOpenRun(s, 16, "p");
  }

  /** The cursor lands three characters past a comment's `-->`, so a
      three-character tag right after the comment is lost. */
  lemma CommentEatsTag()
    ensures Tokenize("<!--a--><b><i>") == Ok([Comment("a"), TagOpen("i", [])])
  {
    var s := "<!--a--><b><i>";
    TrimKeeps(s);
    assert StartsAt(s, 0, "<!--" + "a" + "-->");
    assert StartsAt(s, 11, "<" + "i" + ">");
    NoDashNoTerminator("a");
    LastOpenRun(s, 11, "i");
    CommentRun(s, "a", [TagOpen("i", [])]);
    assert [Comment("a")] + [TagOpen("i", [])] == [Comment("a"), TagOpen("i", [])];
  }

  /** With the intended cursor the comment of `<!--a--><b><i>` ends right
      before `<b>`, which the loop would then read. */
  lemma CommentKeepsTag(s: string)
    requires s == "<!--a--><b><i>"
    ensures ConsumeCommentIntended(s, 0) == Scanned(Comment("a"), 8)
    ensures StartsAt(s, 8, "<b>")
  {
    assert StartsAt(s, 0, "<!--" + "a" + "-->");
    NoDashNoTerminator("a");
    CommentIntendedScan(s, 0, "a", 8);
  }
}
