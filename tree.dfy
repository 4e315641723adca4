/**
 * The generic syntax tree shared by both tree grammars of the pipeline: the
 * Markdown tree (mdast, with the extension nodes of the book) and the HTML tree
 * (hast). A node has a kind (`type`), kind-specific fields (`depth`, `name`,
 * `value`, `url`, `title`, `identifier`, `label`, `tagName`), the
 * `properties`/`attributes` object, the `data` object (`hName`, `key`, `suffix`),
 * the `data.hProperties` object, and its ordered children.
 */
module Tree {
  import opened Wrappers

  /** A value stored in one of the objects of a node; `Strs` is a string array. */
  datatype Prop = Str(s: string) | Strs(items: seq<string>) | Num(n: int) | Bool(b: bool) | Null

  /** JavaScript truthiness of a stored value (`!!value`). */
  predicate Truthy(p: Prop) {
    match p
    case Str(s) => s != ""
    case Strs(_) => true
    case Num(n) => n != 0
    case Bool(b) => b
    case Null => false
  }

  datatype Node = Node(
    kind: string,
    fields: map<string, Prop>,
    props: map<string, Prop>,
    data: map<string, Prop>,
    hProps: map<string, Prop>,
    children: seq<Node>)

  /** A string-valued field, or None when it is missing or not a string. */
  function StrField(n: Node, key: string): (r: Option<string>)
    ensures r.Some? <==> key in n.fields && n.fields[key].Str?
    ensures r.Some? ==> n.fields[key] == Str(r.value)
  {
    if key in n.fields && n.fields[key].Str? then Some(n.fields[key].s) else None
  }

  /** A string field read where the source assumes it is present; a missing one reads as "". */
  function StrFieldOr(n: Node, key: string): string {
    match StrField(n, key)
    case Some(s) => s
    case None => ""
  }

  /** The value of a data entry that is a string (`data.hName`, `data.key`, ...). */
  function DataStr(n: Node, key: string): Option<string> {
    if key in n.data && n.data[key].Str? then Some(n.data[key].s) else None
  }

  /** A plain text node `{type: "text", value}`. */
  function Text(value: string): (r: Node)
    ensures r.kind == "text" && StrField(r, "value") == Some(value) && r.children == []
  {
    Node("text", map["value" := Str(value)], map[], map[], map[], [])
  }

  /** A hast element `{type: "element", tagName, properties, children}`. */
  function Element(tagName: string, props: map<string, Prop>, children: seq<Node>): (r: Node)
    ensures r.kind == "element" && StrField(r, "tagName") == Some(tagName)
    ensures r.props == props && r.children == children
  {
    Node("element", map["tagName" := Str(tagName)], props, map[], map[], children)
  }

  /** A `marginnote` or `sidenote` node `{type, identifier, label?, children}`. */
  function Note(kind: string, identifier: string, caption: Option<string>, children: seq<Node>): (r: Node)
    ensures r.kind == kind && r.children == children
    ensures StrField(r, "identifier") == Some(identifier) && StrField(r, "label") == caption
  {
    var fields := map["identifier" := Str(identifier)];
    Node(kind, if caption.Some? then fields["label" := Str(caption.value)] else fields, map[], map[], map[], children)
  }

  /** Whether `n` is a hast element with the given tag name. */
  predicate IsElement(n: Node, tagName: string) {
    n.kind == "element" && StrField(n, "tagName") == Some(tagName)
  }

  /** `data.hName := name`, the rendering hint read when the Markdown tree becomes HTML. */
  function WithHName(n: Node, name: string): (r: Node)
    ensures DataStr(r, "hName") == Some(name)
    ensures r.kind == n.kind && r.fields == n.fields && r.props == n.props
    ensures r.hProps == n.hProps && r.children == n.children
  {
    n.(data := n.data["hName" := Str(name)])
  }

  /** The node with its rendering hints (`data`, `data.hProperties`) erased. */
  function Strip(n: Node): Node
    decreases n, 1
  {
    n.(data := map[], hProps := map[], children := StripAll(n.children))
  }

  function StripAll(cs: seq<Node>): (r: seq<Node>)
    decreases cs, 0
    ensures |r| == |cs|
  {
    if cs == [] then [] else [Strip(cs[0])] + StripAll(cs[1..])
  }

  /** Two forests with pairwise equal stripped trees strip to the same forest. */
  lemma {:induction false} StripAllPointwise(xs: seq<Node>, ys: seq<Node>)
    requires |xs| == |ys|
    requires forall i :: 0 <= i < |xs| ==> Strip(xs[i]) == Strip(ys[i])
    ensures StripAll(xs) == StripAll(ys)
    decreases |xs|
  {
    if xs != [] {
      StripAllPointwise(xs[1..], ys[1..]);
    }
  }

  /** The nodes of a tree in pre-order (node first, then the children left to right). */
  function PreOrder(n: Node): (r: seq<Node>)
    decreases n, 1
    ensures |r| >= 1 && r[0] == n
  {
    [n] + PreOrderAll(n.children)
  }

  function PreOrderAll(cs: seq<Node>): seq<Node>
    decreases cs, 0
  {
    if cs == [] then [] else PreOrder(cs[0]) + PreOrderAll(cs[1..])
  }

  /** A node of a forest's pre-order lies in the pre-order of one of its trees. */
  lemma {:induction false} InPreOrderAll(cs: seq<Node>, m: Node)
    requires m in PreOrderAll(cs)
    ensures exists i :: 0 <= i < |cs| && m in PreOrder(cs[i])
    decreases |cs|
  {
    if m !in PreOrder(cs[0]) {
      InPreOrderAll(cs[1..], m);
      var i :| 0 <= i < |cs[1..]| && m in PreOrder(cs[1..][i]);
      assert cs[1..][i] == cs[i + 1];
    }
  }

  /** The pre-order of a child is part of the pre-order of its parent. */
  lemma {:induction false} PreOrderChild(n: Node, i: nat, m: Node)
    requires i < |n.children| && m in PreOrder(n.children[i])
    ensures m in PreOrder(n)
  {
    PreOrderAllMember(n.children, i, m);
  }

  lemma {:induction false} PreOrderAllMember(cs: seq<Node>, i: nat, m: Node)
    requires i < |cs| && m in PreOrder(cs[i])
    ensures m in PreOrderAll(cs)
    decreases |cs|
  {
    if i > 0 {
      PreOrderAllMember(cs[1..], i - 1, m);
    }
  }

  /** A node visited together with its ancestors, root first (as `visitParents` passes them). */
  datatype Visit = Visit(node: Node, ancestors: seq<Node>)

  /** Pre-order visits of the tree `n` whose ancestors are `above`. */
  function PreOrderVisits(n: Node, above: seq<Node>): (r: seq<Visit>)
    decreases n, 1
    ensures |r| >= 1 && r[0] == Visit(n, above)
  {
    [Visit(n, above)] + PreOrderVisitsAll(n.children, above + [n])
  }

  function PreOrderVisitsAll(cs: seq<Node>, above: seq<Node>): seq<Visit>
    decreases cs, 0
  {
    if cs == [] then [] else PreOrderVisits(cs[0], above) + PreOrderVisitsAll(cs[1..], above)
  }

  /** The nodes visited in pre-order are exactly the visits' nodes, in the same order. */
  lemma {:induction false} VisitsFollowPreOrder(n: Node, above: seq<Node>)
    ensures |PreOrderVisits(n, above)| == |PreOrder(n)|
    ensures forall i :: 0 <= i < |PreOrder(n)| ==> PreOrderVisits(n, above)[i].node == PreOrder(n)[i]
    decreases n, 1
  {
    VisitsFollowPreOrderAll(n.children, above + [n]);
  }

  lemma {:induction false} VisitsFollowPreOrderAll(cs: seq<Node>, above: seq<Node>)
    ensures |PreOrderVisitsAll(cs, above)| == |PreOrderAll(cs)|
    ensures forall i :: 0 <= i < |PreOrderAll(cs)| ==> PreOrderVisitsAll(cs, above)[i].node == PreOrderAll(cs)[i]
    decreases cs, 0
  {
    if cs != [] {
      VisitsFollowPreOrder(cs[0], above);
      VisitsFollowPreOrderAll(cs[1..], above);
    }
  }

  /** The decimal digits of `n`, as `Number.prototype.toString` writes them. */
  function NatToString(n: nat): (r: string)
    ensures |r| >= 1
    ensures forall i :: 0 <= i < |r| ==> '0' <= r[i] <= '9'
    ensures (n < 10) <==> (|r| == 1)
  {
    if n < 10 then [Digit(n)] else NatToString(n / 10) + [Digit(n % 10)]
  }

  function Digit(d: nat): (c: char)
    requires d < 10
    ensures '0' <= c <= '9'
  {
    "0123456789"[d]
  }

  /** Distinct numbers have distinct decimal strings. */
  lemma {:induction false} NatToStringInjective(a: nat, b: nat)
    requires NatToString(a) == NatToString(b)
    ensures a == b
  {
    if a >= 10 {
      var sa, sb := NatToString(a), NatToString(b);
      assert sa[..|sa| - 1] == NatToString(a / 10);
      assert sb[..|sb| - 1] == NatToString(b / 10);
      NatToStringInjective(a / 10, b / 10);
      assert Digit(a % 10) == sa[|sa| - 1] == Digit(b % 10);
    }
  }

  predicate AllDigits(s: string) {
    forall i :: 0 <= i < |s| ==> '0' <= s[i] <= '9'
  }

  /** `Number(s)` for a string of decimal digits (leading zeros allowed). */
  function DigitsValue(s: string): nat
    requires AllDigits(s)
  {
    if s == [] then 0 else DigitsValue(s[..|s| - 1]) * 10 + ((s[|s| - 1] as int) - ('0' as int))
  }

  /** Reading back the decimal digits of a number gives the number. */
  lemma {:induction false} DigitsValueOfNatToString(n: nat)
    ensures DigitsValue(NatToString(n)) == n
  {
    var s := NatToString(n);
    var d := n % 10;
    assert (Digit(d) as int) - ('0' as int) == d by {
      assert "0123456789"[d] == (('0' as int) + d) as char;
    }
    if n >= 10 {
      assert s[..|s| - 1] == NatToString(n / 10);
      DigitsValueOfNatToString(n / 10);
    }
  }

  /** The white space that splits a space-separated property: space, tab, line feed, carriage return, form feed. */
  predicate IsSpace(c: char) {
    c == ' ' || c == '\t' || c == '\n' || c == '\r' || c == '\U{000C}'
  }

  predicate NoSpace(s: string) {
    forall i :: 0 <= i < |s| ==> !IsSpace(s[i])
  }

  /** The length of the run of non-space characters that starts `s`. */
  function WordLength(s: string): (n: nat)
    ensures n <= |s|
    ensures forall i :: 0 <= i < n ==> !IsSpace(s[i])
    ensures n < |s| ==> IsSpace(s[n])
  {
    if s == [] || IsSpace(s[0]) then 0 else 1 + WordLength(s[1..])
  }

  /**
   * The token list hastscript stores for a space-separated property such as `htmlFor`:
   * the value split on runs of white space, with no empty token.
   */
  function Tokens(s: string): (r: seq<string>)
    ensures forall i :: 0 <= i < |r| ==> r[i] != [] && NoSpace(r[i])
    decreases |s|
  {
    if s == [] then []
    else if IsSpace(s[0]) then Tokens(s[1..])
    else
      var n := WordLength(s);
      [s[..n]] + Tokens(s[n..])
  }

  /** The characters of `s` that are not white space. */
  function WithoutSpaces(s: string): (r: string)
    ensures NoSpace(r)
  {
    if s == [] then [] else (if IsSpace(s[0]) then [] else [s[0]]) + WithoutSpaces(s[1..])
  }

  function Concat(xs: seq<string>): string {
    if xs == [] then [] else xs[0] + Concat(xs[1..])
  }

  lemma {:induction false} WithoutSpacesAppend(a: string, b: string)
    ensures WithoutSpaces(a + b) == WithoutSpaces(a) + WithoutSpaces(b)
  {
    if a == [] {
      assert a + b == b;
    } else {
      assert (a + b)[0] == a[0];
      assert (a + b)[1..] == a[1..] + b;
      WithoutSpacesAppend(a[1..], b);
      var head := if IsSpace(a[0]) then [] else [a[0]];
      assert WithoutSpaces(a + b) == head + (WithoutSpaces(a[1..]) + WithoutSpaces(b));
      assert head + (WithoutSpaces(a[1..]) + WithoutSpaces(b)) == (head + WithoutSpaces(a[1..])) + WithoutSpaces(b);
    }
  }

  lemma {:induction false} WithoutSpacesOfWord(s: string)
    requires NoSpace(s)
    ensures WithoutSpaces(s) == s
  {
    if s != [] {
      WithoutSpacesOfWord(s[1..]);
    }
  }

  /** The tokens hold exactly the characters of the value that are not white space, in order. */
  lemma {:induction false} TokensKeepText(s: string)
    ensures Concat(Tokens(s)) == WithoutSpaces(s)
    decreases |s|
  {
    if s != [] {
      if IsSpace(s[0]) {
        TokensKeepText(s[1..]);
      } else {
        var n := WordLength(s);
        assert s == s[..n] + s[n..];
        TokensKeepText(s[n..]);
        WithoutSpacesAppend(s[..n], s[n..]);
        WithoutSpacesOfWord(s[..n]);
        assert Tokens(s) == [s[..n]] + Tokens(s[n..]);
        assert ([s[..n]] + Tokens(s[n..]))[1..] == Tokens(s[n..]);
      }
    }
  }

  /** A value without white space is one token: itself. */
  lemma TokensOfWord(s: string)
    requires s != [] && NoSpace(s)
    ensures Tokens(s) == [s]
  {
    var n := WordLength(s);
    assert n == |s|;
    assert s[..n] == s;
    assert s[n..] == [];
  }

  /** `xs.join(sep)`. */
  function Join(xs: seq<string>, sep: string): string {
    if xs == [] then "" else if |xs| == 1 then xs[0] else xs[0] + sep + Join(xs[1..], sep)
  }

  /** `String(value)` for a stored value; a missing entry prints as "undefined". */
  function ToJsString(p: Option<Prop>): string {
    match p
    case None => "undefined"
    case Some(Str(s)) => s
    case Some(Strs(items)) => Join(items, ",")
    case Some(Num(n)) => if n < 0 then "-" + NatToString(-n) else NatToString(n)
    case Some(Bool(b)) => if b then "true" else "false"
    case Some(Null) => "null"
  }

  /** The entry of a map as an Option. */
  function Get(m: map<string, Prop>, key: string): Option<Prop> {
    if key in m then Some(m[key]) else None
  }

  predicate StartsWith(s: string, prefix: string) {
    |prefix| <= |s| && s[..|prefix|] == prefix
  }
}
