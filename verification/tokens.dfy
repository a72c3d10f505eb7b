/** Outcomes shared by the scanners and the selector engine. */
module Outcomes {

  /** A value or JavaScript's `null`/`undefined`. */
  datatype Option<+T> = None | Some(value: T)

  /** Why a scan of the `.mjs` tokenizer does not produce tokens. */
  datatype Error =
    /** The `throw` of `handleSpecialTag`: an unknown `<!` sequence at `at`. */
    | Unexpected(at: nat)
    /** A loop that runs past the end of the input: a name run or an
        unclosed quote keeps appending `undefined` until the engine throws
        for an invalid string length. */
    | Unterminated(at: nat)

  datatype Result<+T> = Ok(value: T) | Err(error: Error)

  /** A scanned value and the cursor position after it. */
  datatype Scanned<+T> = Scanned(value: T, next: nat)
}

/** The records the tokenizers emit. */
module Tokens {
  import opened Chars

  /** `{ name, value }` of a start tag. */
  datatype Attribute = Attribute(name: string, value: string)

  /** `{ type, value, attributes }` records; the `ATTRIBUTE` type is declared
      in the source but never emitted. */
  datatype Token =
    | TagOpen(name: string, attributes: seq<Attribute>)
    | TagClose(name: string)
    | Text(value: string)
    | Comment(value: string)
    | Doctype(value: string)

  /** An attribute as both scanners read it: a `[a-zA-Z0-9-]` name and a value
      without `"`. */
  predicate AttrShaped(a: Attribute) {
    All(a.name, IsNameChar) && '"' !in a.value
  }

  /** Every attribute of a list is shaped as the scanners read it. */
  predicate AttrsShaped(attrs: seq<Attribute>) {
    forall k :: 0 <= k < |attrs| ==> AttrShaped(attrs[k])
  }

  /** A non-empty list is its first attribute in front of the rest. */
  lemma AttrsSplit(attrs: seq<Attribute>)
    requires attrs != []
    ensures [attrs[0]] + attrs[1..] == attrs
  {
  }

  /** The source text ` name="value"` of one attribute. */
  function AttrText(a: Attribute): string {
    " " + a.name + "=\"" + a.value + "\""
  }

  /** The source text of an attribute list, one `AttrText` after another. */
  function AttrsText(attrs: seq<Attribute>): string
    decreases |attrs|
  {
    if attrs == [] then [] else AttrText(attrs[0]) + AttrsText(attrs[1..])
  }

  /** How many characters ` name="value"` takes. */
  function AttrWidth(a: Attribute): nat {
    |a.name| + |a.value| + 4
  }

  /** How many characters an attribute list's text takes. */
  function AttrsWidth(attrs: seq<Attribute>): nat
    decreases |attrs|
  {
    if attrs == [] then 0 else AttrWidth(attrs[0]) + AttrsWidth(attrs[1..])
  }

  /** The width of a non-empty list from `i`, one attribute after another. */
  lemma AttrsWidthStep(i: nat, k: nat, attrs: seq<Attribute>)
    requires attrs != [] && k == i + AttrWidth(attrs[0])
    ensures k + AttrsWidth(attrs[1..]) == i + AttrsWidth(attrs)
  {
  }

  /** The widths are the lengths of the texts. */
  lemma {:induction false} AttrsTextWidth(attrs: seq<Attribute>)
    ensures |AttrsText(attrs)| == AttrsWidth(attrs)
    decreases |attrs|
  {
    if attrs != [] {
      AttrsTextWidth(attrs[1..]);
      assert |AttrText(attrs[0])| == AttrWidth(attrs[0]);
    }
  }

  /** Where ` name="value"` sits at `i`: the space, the name followed by
      `=`, the opening quote, and the value followed by the closing quote. */
  lemma AttrPieces(s: string, i: nat, a: Attribute)
    requires StartsAt(s, i, AttrText(a))
    ensures s[i] == ' '
    ensures StartsAt(s, i + 1, a.name + "=")
    ensures s[i + 2 + |a.name|] == '"'
    ensures StartsAt(s, i + 3 + |a.name|, a.value + "\"")
  {
    var w := AttrText(a);
    var n := |a.name|;
    CharAt(s, i, w, 0);
    CharAt(s, i, w, n + 2);
    assert w[1..] == (a.name + "=") + ("\"" + a.value + "\"");
    StartsAtSuffix(s, i, w, 1);
    StartsAtFirst(s, i + 1, a.name + "=", "\"" + a.value + "\"");
    assert w[n + 3..] == a.value + "\"";
    StartsAtSuffix(s, i, w, n + 3);
  }

  /** Where a non-empty attribute list's text sits at `i`, its first
      attribute's text sits there and the rest follows it. */
  lemma AttrsPieces(s: string, i: nat, attrs: seq<Attribute>, tail: string)
    requires attrs != [] && StartsAt(s, i, AttrsText(attrs) + tail)
    ensures StartsAt(s, i, AttrText(attrs[0]))
    ensures StartsAt(s, i + |AttrText(attrs[0])|, AttrsText(attrs[1..]) + tail)
  {
    var w, v := AttrText(attrs[0]), AttrsText(attrs[1..]) + tail;
    assert AttrsText(attrs) + tail == w + v;
    StartsAtFirst(s, i, w, v);
    assert (w + v)[|w|..] == v;
    StartsAtSuffix(s, i, w + v, |w|);
  }

  /** The layout of ` name="value"` at `i`, character by character: the
      space, the name, `=`, the opening quote, the value and the closing
      quote. */
  predicate AttrLaid(s: string, i: nat, a: Attribute) {
    var n, m := |a.name|, |a.value|;
    && i + 4 + n + m <= |s|
    && s[i] == ' ' && s[i + 1 + n] == '=' && s[i + 2 + n] == '"' && s[i + 3 + n + m] == '"'
    && Spelled(s, i + 1, a.name)
    && Spelled(s, i + 3 + n, a.value)
  }

  /** The layout of an attribute list's text followed by `>` at `i`. */
  predicate AttrsLaid(s: string, i: nat, attrs: seq<Attribute>)
    decreases |attrs|
  {
    if attrs == [] then
      i < |s| && s[i] == '>'
    else
      AttrLaid(s, i, attrs[0]) && AttrsLaid(s, i + AttrWidth(attrs[0]), attrs[1..])
  }

  /** Every attribute of a non-empty list's tail is shaped when every
      attribute of the list is. */
  lemma AttrsTail(attrs: seq<Attribute>)
    requires attrs != [] && AttrsShaped(attrs)
    ensures AttrShaped(attrs[0]) && AttrsShaped(attrs[1..])
  {
    forall k | 0 <= k < |attrs[1..]|
      ensures AttrShaped(attrs[1..][k])
    {
      assert attrs[1..][k] == attrs[k + 1];
    }
  }

  /** The layout of an attribute list ends on its `>`. */
  lemma {:induction false} AttrsLaidEnd(s: string, i: nat, attrs: seq<Attribute>)
    requires AttrsLaid(s, i, attrs)
    ensures i + AttrsWidth(attrs) < |s| && s[i + AttrsWidth(attrs)] == '>'
    decreases |attrs|
  {
    if attrs != [] {
      AttrsLaidEnd(s, i + AttrWidth(attrs[0]), attrs[1..]);
    }
  }

  /** The text of one attribute has that attribute's layout. */
  lemma AttrLaidOut(s: string, i: nat, a: Attribute)
    requires StartsAt(s, i, AttrText(a))
    ensures AttrLaid(s, i, a)
  {
    var n, m := |a.name|, |a.value|;
    var u, v := a.name + "=", a.value + "\"";
    AttrPieces(s, i, a);
    SpelledPrefix(s, i + 1, u, n);
    SpelledPrefix(s, i + 3 + n, v, m);
    assert u[..n] == a.name && v[..m] == a.value;
    CharAt(s, i + 1, u, n);
    CharAt(s, i + 3 + n, v, m);
  }

  /** The text of an attribute list followed by `>` has the list's layout. */
  lemma {:induction false} AttrsLaidOut(s: string, i: nat, attrs: seq<Attribute>)
    requires StartsAt(s, i, AttrsText(attrs) + ">")
    ensures AttrsLaid(s, i, attrs)
    decreases |attrs|
  {
    if attrs == [] {
      assert AttrsText(attrs) + ">" == ">";
      CharAt(s, i, ">", 0);
    } else {
      AttrsPieces(s, i, attrs, ">");
      AttrLaidOut(s, i, attrs[0]);
      AttrsLaidOut(s, i + AttrWidth(attrs[0]), attrs[1..]);
    }
  }

  /** The shape every emitted token has: tag names are `[a-zA-Z0-9]` runs, and
      text is non-empty, starts with non-whitespace and holds no `<`. */
  predicate WellShaped(t: Token) {
    match t
    case TagOpen(name, attrs) =>
      All(name, IsAlnum) && AttrsShaped(attrs)
    case TagClose(name) => All(name, IsAlnum)
    case Text(value) => value != [] && !IsSpace(value[0]) && '<' !in value
    case Comment(_) => true
    case Doctype(_) => true
  }

  predicate AllShaped(ts: seq<Token>) {
    forall t :: t in ts ==> WellShaped(t)
  }

  /** A start tag's token, alone or followed by its synthetic close token,
      is well shaped when its name and attributes are. */
  lemma OpenShaped(name: string, attrs: seq<Attribute>)
    requires All(name, IsAlnum)
    requires AttrsShaped(attrs)
    ensures AllShaped([TagOpen(name, attrs)])
    ensures AllShaped([TagOpen(name, attrs), TagClose(name)])
  {
  }
}
