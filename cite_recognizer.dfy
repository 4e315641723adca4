/**
 * The textual citation recognizer of `remarkCite`: the anchored regular expression
 * `^(?<before>.*)@(?<key>...)(\s*\[(?<suffix>[^\]]+)\])?(?<after>.*)$`, written as a
 * parser that follows the backtracking order of the JavaScript engine, and the
 * text-node walk that splices each match into its parent.
 */
module CiteRecognizer {
  import opened Wrappers
  import opened Tree

  predicate IsAlnum(c: char) {
    ('A' <= c <= 'Z') || ('a' <= c <= 'z') || ('0' <= c <= '9')
  }

  /** The separator class `[:.#$%&-+?<>~\/]`, where `&-+` is the range `& ' ( ) * +`. */
  predicate IsSep(c: char) {
    c in {':', '.', '#', '$', '%', '&', '\'', '(', ')', '*', '+', '?', '<', '>', '~', '/'}
  }

  /** The characters `.` does not match. */
  predicate IsLineTerminator(c: char) {
    c in {'\n', '\r', '\U{2028}', '\U{2029}'}
  }

  /** The characters `\s` matches: white space and line terminators. */
  predicate IsSpace(c: char) {
    || c in {'\t', '\U{000B}', '\U{000C}', ' ', '\U{00A0}', '\U{1680}', '\U{202F}', '\U{205F}', '\U{3000}', '\U{FEFF}'}
    || ('\U{2000}' <= c <= '\U{200A}')
    || IsLineTerminator(c)
  }

  /** A string `.*` matches. */
  predicate NoTerminator(s: string) {
    forall i :: 0 <= i < |s| ==> !IsLineTerminator(s[i])
  }

  /**
   * A string the key group matches: alphanumeric runs joined by single separators.
   * A separator must be followed by an alphanumeric character, so a key neither
   * starts nor ends with one and never holds two in a row.
   */
  predicate IsKey(k: string) {
    && |k| >= 1
    && IsAlnum(k[0])
    && forall i :: 0 <= i < |k| ==> KeyCharOk(k, i)
  }

  /** Every character of a key is alphanumeric, or a separator followed by an alphanumeric character. */
  predicate KeyCharOk(k: string, i: nat)
    requires i < |k|
  {
    IsAlnum(k[i]) || (IsSep(k[i]) && i + 1 < |k| && IsAlnum(k[i + 1]))
  }

  /** Whether a key followed by `rest` could be extended by the greedy key group. */
  predicate Extendable(rest: string) {
    (|rest| >= 1 && IsAlnum(rest[0])) || (|rest| >= 2 && IsSep(rest[0]) && IsAlnum(rest[1]))
  }

  /** Any position strictly inside a key can be extended. */
  lemma KeyPrefixExtendable(s: string, a: nat, b: nat)
    requires b < a <= |s| && IsKey(s[..a])
    ensures Extendable(s[b..])
  {
    var k := s[..a];
    assert k[b] == s[b];
    assert KeyCharOk(k, b);
    if !IsAlnum(k[b]) {
      assert k[b + 1] == s[b + 1];
    }
  }

  /** A key followed by an alphanumeric character, or by a separator and an alphanumeric character, grows. */
  lemma KeyGrows(s: string, j: nat, step: nat)
    requires 1 <= j && j + step <= |s| && IsKey(s[..j])
    requires (step == 1 && IsAlnum(s[j])) || (step == 2 && IsSep(s[j]) && IsAlnum(s[j + 1]))
    ensures IsKey(s[..j + step])
  {
    var k, k' := s[..j], s[..j + step];
    forall i | 0 <= i < |k'|
      ensures KeyCharOk(k', i)
    {
      if i < j {
        assert k'[i] == k[i];
        assert KeyCharOk(k, i);
        if !IsAlnum(k[i]) {
          assert k'[i + 1] == k[i + 1];
        }
      }
    }
  }

  /** The end of the longest key that starts `s` and is at least `s[..j]`. */
  function KeyEnd(s: string, j: nat): (r: nat)
    requires 1 <= j <= |s| && IsKey(s[..j])
    ensures j <= r <= |s| && IsKey(s[..r]) && !Extendable(s[r..])
    decreases |s| - j
  {
    if |s[j..]| >= 1 && IsAlnum(s[j]) then
      KeyGrows(s, j, 1);
      KeyEnd(s, j + 1)
    else if |s[j..]| >= 2 && IsSep(s[j]) && IsAlnum(s[j + 1]) then
      KeyGrows(s, j, 2);
      KeyEnd(s, j + 2)
    else
      assert s[j..] == s[j..];
      j
  }

  /** The key is unique: two keys that start `s` and cannot be extended are the same. */
  lemma KeyMaximalUnique(s: string, a: nat, b: nat)
    requires a <= |s| && b <= |s| && IsKey(s[..a]) && IsKey(s[..b])
    requires !Extendable(s[a..]) && !Extendable(s[b..])
    ensures a == b
  {
    if a < b { KeyPrefixExtendable(s, b, a); }
    if b < a { KeyPrefixExtendable(s, a, b); }
  }

  /** The optional group `\s*\[(?<suffix>[^\]]+)\]`. */
  datatype Bracket = Bracket(spacing: string, suffix: string)

  predicate WellFormed(b: Bracket) {
    && (forall i :: 0 <= i < |b.spacing| ==> IsSpace(b.spacing[i]))
    && |b.suffix| >= 1
    && (forall i :: 0 <= i < |b.suffix| ==> b.suffix[i] != ']')
  }

  function BracketText(b: Bracket): string {
    b.spacing + "[" + b.suffix + "]"
  }

  predicate NotClose(c: char) {
    c != ']'
  }

  /** The length of the run of leading characters satisfying `p`. */
  function Run(s: string, p: char -> bool): (r: nat)
    ensures r <= |s|
  {
    if s == [] || !p(s[0]) then 0 else 1 + Run(s[1..], p)
  }

  /** The run's characters all satisfy `p`, and the character after it does not. */
  lemma RunSpec(s: string, p: char -> bool)
    ensures forall i :: 0 <= i < Run(s, p) ==> p(s[i])
    ensures Run(s, p) == |s| || !p(s[Run(s, p)])
  {
    if s != [] && p(s[0]) {
      RunSpec(s[1..], p);
    }
  }

  /** A run is the longest: its end is the first character outside the class. */
  lemma RunIs(s: string, p: char -> bool, k: nat)
    requires k <= |s| && (forall i :: 0 <= i < k ==> p(s[i])) && (k == |s| || !p(s[k]))
    ensures Run(s, p) == k
  {
    if k > 0 {
      assert p(s[0]);
      assert forall i :: 0 <= i < k - 1 ==> s[1..][i] == s[i + 1];
      RunIs(s[1..], p, k - 1);
    }
  }

  /** The greedy match of the bracket group at the start of `rest`, if it matches. */
  function ParseBracket(rest: string): Option<Bracket> {
    var w := Run(rest, IsSpace);
    if w < |rest| && rest[w] == '[' then
      var j := Run(rest[w + 1..], NotClose);
      if j >= 1 && w + 1 + j < |rest| then Some(Bracket(rest[..w], rest[w + 1..w + 1 + j]))
      else None
    else None
  }

  /** A parsed bracket group is well formed and starts the text. */
  lemma ParseBracketSound(rest: string)
    requires ParseBracket(rest).Some?
    ensures var b := ParseBracket(rest).value;
      WellFormed(b) && |BracketText(b)| <= |rest| && rest == BracketText(b) + rest[|BracketText(b)|..]
  {
    var w := Run(rest, IsSpace);
    BracketParsed(rest, w, Run(rest[w + 1..], NotClose));
  }

  lemma BracketParsed(rest: string, w: nat, j: nat)
    requires w < |rest| && rest[w] == '[' && w == Run(rest, IsSpace)
    requires j >= 1 && w + 1 + j < |rest| && j == Run(rest[w + 1..], NotClose)
    ensures
      var b := Bracket(rest[..w], rest[w + 1..w + 1 + j]);
      WellFormed(b) && |BracketText(b)| <= |rest| && rest == BracketText(b) + rest[|BracketText(b)|..]
  {
    var b := Bracket(rest[..w], rest[w + 1..w + 1 + j]);
    var tail := rest[w + 1..];
    RunSpec(rest, IsSpace);
    RunSpec(tail, NotClose);
    assert forall i :: 0 <= i < w ==> b.spacing[i] == rest[i];
    assert forall i :: 0 <= i < j ==> b.suffix[i] == tail[i];
    assert !NotClose(tail[j]);
    assert rest[w + 1 + j] == ']';
    assert rest[..w + 2 + j] == BracketText(b);
    assert |BracketText(b)| == w + 2 + j;
    assert rest == rest[..w + 2 + j] + rest[w + 2 + j..];
  }

  /** The bracket group is deterministic: a well-formed bracket at the start of `rest` is the one parsed. */
  lemma ParseBracketComplete(b: Bracket, after: string)
    requires WellFormed(b)
    ensures ParseBracket(BracketText(b) + after) == Some(b)
  {
    var rest := BracketText(b) + after;
    var w, j := |b.spacing|, |b.suffix|;
    BracketLayout(b, after);
    RunIs(rest, IsSpace, w);
    RunIs(rest[w + 1..], NotClose, j);
    ParseBracketAt(rest, w, j);
  }

  /** The bracket group parsed once the two runs are known. */
  lemma ParseBracketAt(rest: string, w: nat, j: nat)
    requires w < |rest| && rest[w] == '[' && w == Run(rest, IsSpace)
    requires j >= 1 && w + 1 + j < |rest| && j == Run(rest[w + 1..], NotClose)
    ensures ParseBracket(rest) == Some(Bracket(rest[..w], rest[w + 1..w + 1 + j]))
  {
  }

  /** Where the parts of a bracket group lie in the text that starts with it. */
  lemma BracketLayout(b: Bracket, after: string)
    requires WellFormed(b)
    ensures var rest := BracketText(b) + after; var w, j := |b.spacing|, |b.suffix|;
      && w + 1 + j < |rest|
      && rest[..w] == b.spacing && rest[w] == '['
      && (forall i :: 0 <= i < w ==> IsSpace(rest[i]))
      && rest[w + 1..w + 1 + j] == b.suffix
      && (forall i :: w + 1 <= i < w + 1 + j ==> NotClose(rest[i]))
      && rest[w + 1 + j] == ']'
  {
    var rest := BracketText(b) + after;
    var w, j := |b.spacing|, |b.suffix|;
    assert rest == b.spacing + ("[" + b.suffix + "]" + after);
    assert rest[w + 1..] == b.suffix + ("]" + after);
  }

  /** The captures of one match; `bracket` is absent when the optional group did not take part. */
  datatype Match = Match(before: string, key: string, bracket: Option<Bracket>, after: string)

  function BracketOf(m: Match): string {
    if m.bracket.Some? then BracketText(m.bracket.value) else ""
  }

  /** `Matches(v, m)`: the regular expression can match `v` with captures `m` (some way, not necessarily the engine's). */
  predicate Matches(v: string, m: Match) {
    && v == m.before + "@" + m.key + BracketOf(m) + m.after
    && NoTerminator(m.before)
    && IsKey(m.key)
    && (m.bracket.Some? ==> WellFormed(m.bracket.value))
    && NoTerminator(m.after)
  }

  /**
   * The engine's attempt with `before` of length `i`: the greedy key, then the bracket
   * group if it matches, then `.*$` for the rest. Backtracking into a shorter key or
   * skipping the group cannot help, since both leave a longer `after`.
   */
  function MatchAt(v: string, i: nat): Option<Match>
    requires i < |v|
  {
    if v[i] != '@' || i + 1 >= |v| || !IsAlnum(v[i + 1]) || !NoTerminator(v[..i]) then None
    else Attempt(v[..i], v[i + 1..])
  }

  /** The part of the attempt after `@`, on the text `s` that follows it. */
  function Attempt(before: string, s: string): Option<Match>
    requires |s| >= 1 && IsAlnum(s[0])
  {
    var n := KeyEnd(s, FirstKeyChar(s));
    AfterKey(before, s[..n], s[n..])
  }

  /** What a successful attempt captured: the greedy key, then a bracket and the rest of the line. */
  lemma AttemptSound(before: string, s: string)
    requires |s| >= 1 && IsAlnum(s[0]) && Attempt(before, s).Some?
    ensures var m := Attempt(before, s).value; var n := KeyEnd(s, FirstKeyChar(s));
      && m.before == before && IsKey(m.key) && NoTerminator(m.after)
      && (m.bracket.Some? ==> WellFormed(m.bracket.value))
      && m.key == s[..n]
      && BracketOf(m) + m.after == s[n..]
      && (m.bracket.None? ==> ParseBracket(m.after).None?)
  {
  }

  /** The text of a successful attempt is the text it was made on. */
  lemma AttemptText(before: string, s: string)
    requires |s| >= 1 && IsAlnum(s[0]) && Attempt(before, s).Some?
    ensures var m := Attempt(before, s).value; s == m.key + BracketOf(m) + m.after
  {
    var m := Attempt(before, s).value;
    AttemptSound(before, s);
    Rejoin(s, KeyEnd(s, FirstKeyChar(s)), m.key, BracketOf(m), m.after);
  }

  /** A text split at `n` is its two parts joined again. */
  lemma Rejoin(s: string, n: nat, key: string, bracket: string, after: string)
    requires n <= |s| && key == s[..n] && bracket + after == s[n..]
    ensures s == key + bracket + after
  {
    assert s == s[..n] + s[n..];
    assert key + (bracket + after) == key + bracket + after;
  }

  /** The attempt once the key is taken: the bracket group if it matches, then the rest of the line. */
  function AfterKey(before: string, key: string, rest: string): (r: Option<Match>)
    ensures r.Some? ==> r.value.before == before && r.value.key == key && NoTerminator(r.value.after)
    ensures r.Some? ==> (r.value.bracket.Some? ==> WellFormed(r.value.bracket.value))
    ensures r.Some? ==> BracketOf(r.value) + r.value.after == rest
    ensures r.Some? && r.value.bracket.None? ==> r.value.after == rest && ParseBracket(rest).None?
  {
    match ParseBracket(rest)
    case Some(b) =>
      ParseBracketSound(rest);
      var after := rest[|BracketText(b)|..];
      if NoTerminator(after) then Some(Match(before, key, Some(b), after)) else None
    case None =>
      if NoTerminator(rest) then Some(Match(before, key, None, rest)) else None
  }

  /** A string starting with an alphanumeric character starts with a one-character key. */
  function FirstKeyChar(s: string): (one: nat)
    requires |s| >= 1 && IsAlnum(s[0])
    ensures one == 1 && one <= |s| && IsKey(s[..one])
  {
    assert s[..1][0] == s[0];
    1
  }

  /** Whatever the attempt at `i` yields is a match of the expression with `before` of length `i`. */
  lemma MatchAtSound(v: string, i: nat)
    requires i < |v| && MatchAt(v, i).Some?
    ensures Matches(v, MatchAt(v, i).value) && |MatchAt(v, i).value.before| == i
  {
    var m := Attempt(v[..i], v[i + 1..]).value;
    AttemptSound(v[..i], v[i + 1..]);
    AttemptText(v[..i], v[i + 1..]);
    MatchText(v, i, m);
  }

  /** The text of a match found at `i` is the text it was found in. */
  lemma MatchText(v: string, i: nat, m: Match)
    requires i < |v| && v[i] == '@' && m.before == v[..i]
    requires v[i + 1..] == m.key + BracketOf(m) + m.after
    ensures v == m.before + "@" + m.key + BracketOf(m) + m.after
  {
    var s := v[i + 1..];
    assert v == v[..i] + "@" + s by {
      assert v == v[..i] + [v[i]] + s;
    }
    assert v[..i] + "@" + (m.key + BracketOf(m) + m.after) == v[..i] + "@" + m.key + BracketOf(m) + m.after;
  }

  /** The greedy key covers every key that starts `s`. */
  lemma KeyEndCovers(s: string, k: nat)
    requires 1 <= k <= |s| && IsKey(s[..k])
    ensures k <= KeyEnd(s, FirstKeyChar(s))
  {
    var n := KeyEnd(s, FirstKeyChar(s));
    if n < k {
      KeyPrefixExtendable(s, k, n);
    }
  }

  /** A key that starts `s` and cannot be extended is the greedy one. */
  lemma KeyEndIs(s: string, k: nat)
    requires 1 <= k <= |s| && IsKey(s[..k]) && !Extendable(s[k..])
    ensures KeyEnd(s, FirstKeyChar(s)) == k
  {
    KeyMaximalUnique(s, k, KeyEnd(s, FirstKeyChar(s)));
  }

  /** If `s` splits as a key, an optional bracket and a clean rest, the attempt on `s` succeeds. */
  lemma AttemptComplete(before: string, s: string, m0: Match)
    requires |s| >= 1 && IsAlnum(s[0])
    requires s == m0.key + BracketOf(m0) + m0.after && IsKey(m0.key) && NoTerminator(m0.after)
    requires m0.bracket.Some? ==> WellFormed(m0.bracket.value)
    ensures Attempt(before, s).Some?
  {
    var k := |m0.key|;
    assert s[..k] == m0.key;
    assert s[k..] == BracketOf(m0) + m0.after;
    if m0.bracket.Some? {
      AttemptCompleteBracket(before, s, k, m0.bracket.value, m0.after);
    } else {
      AttemptCompletePlain(before, s, k);
    }
  }

  lemma AttemptCompleteBracket(before: string, s: string, k: nat, b0: Bracket, after0: string)
    requires |s| >= 1 && IsAlnum(s[0]) && 1 <= k <= |s| && IsKey(s[..k])
    requires WellFormed(b0) && s[k..] == BracketText(b0) + after0 && NoTerminator(after0)
    ensures Attempt(before, s).Some?
  {
    assert s[k..][0] == BracketText(b0)[0];
    KeyEndIs(s, k);
    ParseBracketComplete(b0, after0);
    assert s[k..][|BracketText(b0)|..] == after0;
  }

  lemma AttemptCompletePlain(before: string, s: string, k: nat)
    requires |s| >= 1 && IsAlnum(s[0]) && 1 <= k <= |s| && IsKey(s[..k]) && NoTerminator(s[k..])
    ensures Attempt(before, s).Some?
  {
    var n := KeyEnd(s, FirstKeyChar(s));
    KeyEndCovers(s, k);
    var rest := s[n..];
    assert rest == s[k..][n - k..];
    match ParseBracket(rest)
    case Some(b) =>
      assert rest[|BracketText(b)|..] == s[k..][n - k + |BracketText(b)|..];
    case None =>
  }

  /**
   * For its `before`, the attempt takes the longest key and the bracket group
   * whenever it is there: the key cannot be extended, and an unbracketed match
   * leaves no bracket at the start of `after`.
   */
  lemma AttemptGreedy(before: string, s: string)
    requires |s| >= 1 && IsAlnum(s[0]) && Attempt(before, s).Some?
    ensures
      var m := Attempt(before, s).value;
      !Extendable(BracketOf(m) + m.after) && (m.bracket.None? ==> ParseBracket(m.after).None?)
  {
    AttemptSound(before, s);
  }

  /** Any way the expression can match with `before` of length `i`, the engine's attempt at `i` succeeds. */
  lemma MatchAtComplete(v: string, m0: Match)
    requires Matches(v, m0)
    ensures |m0.before| < |v| && MatchAt(v, |m0.before|).Some?
  {
    var i := |m0.before|;
    assert v[..i] == m0.before;
    assert v[i] == '@';
    var s := v[i + 1..];
    assert s == m0.key + BracketOf(m0) + m0.after;
    assert s[0] == m0.key[0];
    AttemptComplete(v[..i], s, m0);
  }

  /** The largest index below `n` where `p` holds: the engine tries the longest `before` first. */
  function LastIndex(p: nat -> bool, n: nat): (r: Option<nat>)
    ensures r.Some? ==> r.value < n && p(r.value) && forall j :: r.value < j < n ==> !p(j)
    ensures r.None? ==> forall j :: 0 <= j < n ==> !p(j)
  {
    if n == 0 then None
    else if p(n - 1) then Some(n - 1)
    else LastIndex(p, n - 1)
  }

  /** Whether the engine's attempt with `before` of length `i` succeeds. */
  function Succeeds(v: string): nat -> bool {
    (i: nat) => i < |v| && MatchAt(v, i).Some?
  }

  /** `value.match(citeRegExp)`. */
  function Recognize(v: string): (r: Option<Match>)
    ensures r.Some? ==> Matches(v, r.value)
  {
    match LastIndex(Succeeds(v), |v|)
    case None => None
    case Some(i) =>
      MatchAtSound(v, i);
      MatchAt(v, i)
  }

  /** A match found is the engine's attempt at its own `before`, and every longer `before` fails. */
  lemma RecognizeIsLast(v: string)
    requires Recognize(v).Some?
    ensures
      var i := |Recognize(v).value.before|;
      && i < |v| && MatchAt(v, i) == Recognize(v)
      && forall j :: i < j < |v| ==> MatchAt(v, j).None?
  {
    var last := LastIndex(Succeeds(v), |v|);
    var i := last.value;
    assert Recognize(v) == MatchAt(v, i);
    MatchAtBefore(v, i);
    forall j | i < j < |v| ensures MatchAt(v, j).None? {
      assert !Succeeds(v)(j);
    }
  }

  /** The attempt at `i` takes the first `i` characters as `before`. */
  lemma MatchAtBefore(v: string, i: nat)
    requires i < |v| && MatchAt(v, i).Some?
    ensures |MatchAt(v, i).value.before| == i
  {
    assert MatchAt(v, i) == AfterKey(v[..i], v[i + 1..][..KeyEnd(v[i + 1..], 1)], v[i + 1..][KeyEnd(v[i + 1..], 1)..]);
  }

  /**
   * The recognizer decides the language of the expression, and picks the match
   * with the longest `before`, so the last citation of the line is the one found.
   */
  lemma {:induction false} RecognizeIsGreedy(v: string, m0: Match)
    requires Matches(v, m0)
    ensures Recognize(v).Some?
    ensures |m0.before| <= |Recognize(v).value.before|
  {
    MatchAtComplete(v, m0);
    assert Succeeds(v)(|m0.before|);
    if Recognize(v).Some? {
      RecognizeIsLast(v);
    }
  }

  /** No match exactly when the expression matches no way at all. */
  lemma RecognizeNoneIff(v: string)
    ensures Recognize(v).None? <==> forall m :: !Matches(v, m)
  {
    if Recognize(v).None? {
      forall m | Matches(v, m) ensures false {
        RecognizeIsGreedy(v, m);
      }
    }
  }

  /** For the `before` it settles on, the recognizer takes the longest key and the bracket group whenever it is there. */
  lemma RecognizeTakesLongestKey(v: string)
    requires Recognize(v).Some?
    ensures
      var m := Recognize(v).value;
      !Extendable(BracketOf(m) + m.after) && (m.bracket.None? ==> ParseBracket(m.after).None?)
  {
    var m := Recognize(v).value;
    var i := |m.before|;
    RecognizeIsLast(v);
    AttemptGreedy(v[..i], v[i + 1..]);
  }

  /** The text-cite node `{type: "text-cite", value: "@" + key, data: {key, suffix}}`. */
  function CiteNode(m: Match): (r: Node)
    ensures r.kind == "text-cite" && r.children == []
    ensures StrField(r, "value") == Some("@" + m.key) && DataStr(r, "key") == Some(m.key)
    ensures m.bracket.Some? ==> DataStr(r, "suffix") == Some(m.bracket.value.suffix)
    ensures m.bracket.None? ==> "suffix" !in r.data
  {
    var data := map["key" := Str(m.key)];
    Node("text-cite", map["value" := Str("@" + m.key)], map[], if m.bracket.Some? then data["suffix" := Str(m.bracket.value.suffix)] else data, map[], [])
  }

  /** The three nodes that replace a matched text node. */
  function Splice(m: Match): seq<Node> {
    [Text(m.before), CiteNode(m), Text(m.after)]
  }

  /** A measure the walk decreases: a text node weighs more than the nodes it is split into. */
  function Weight(n: Node): (w: nat)
    decreases n, 1
    ensures w >= 1
  {
    (if n.kind == "text" then |StrFieldOr(n, "value")| + 1 else 1) + WeightAll(n.children)
  }

  function WeightAll(cs: seq<Node>): nat
    decreases cs, 0
  {
    if cs == [] then 0 else Weight(cs[0]) + WeightAll(cs[1..])
  }

  lemma WeightAllAppend(xs: seq<Node>, ys: seq<Node>)
    ensures WeightAll(xs + ys) == WeightAll(xs) + WeightAll(ys)
  {
    if xs != [] {
      assert (xs + ys)[0] == xs[0];
      assert (xs + ys)[1..] == xs[1..] + ys;
      WeightAllAppend(xs[1..], ys);
    } else {
      assert xs + ys == ys;
    }
  }

  lemma WeightCons(x: Node, rest: seq<Node>)
    ensures WeightAll([x] + rest) == Weight(x) + WeightAll(rest)
  {
    assert ([x] + rest)[0] == x && ([x] + rest)[1..] == rest;
  }

  /** A matcher that only matches text it can split off `@` and a key character from. */
  ghost predicate Shrinks(matcher: string -> Option<Match>) {
    forall v :: matcher(v).Some? ==> |matcher(v).value.after| + 2 <= |v|
  }

  lemma RecognizeShrinks()
    ensures Shrinks(Recognize)
  {
    forall v | Recognize(v).Some?
      ensures |Recognize(v).value.after| + 2 <= |v|
    {
      var m := Recognize(v).value;
      assert v == m.before + "@" + m.key + BracketOf(m) + m.after;
    }
  }

  /** The match of the visitor on a node: only text nodes are matched. */
  function Found(x: Node, matcher: string -> Option<Match>): Option<Match> {
    if x.kind == "text" then matcher(StrFieldOr(x, "value")) else None
  }

  /** The nodes after the first of a splice, with the siblings after it, weigh less than the matched node and those siblings. */
  lemma SpliceLighter(x: Node, rest: seq<Node>, matcher: string -> Option<Match>)
    requires Shrinks(matcher) && Found(x, matcher).Some?
    ensures WeightAll(Splice(Found(x, matcher).value)[1..] + rest) < WeightAll([x] + rest)
  {
    var m := Found(x, matcher).value;
    var sp := Splice(m)[1..];
    assert sp == [CiteNode(m), Text(m.after)];
    WeightAllAppend(sp, rest);
    WeightAllAppend([x], rest);
    assert Weight(CiteNode(m)) == 1;
    assert StrFieldOr(Text(m.after), "value") == m.after;
    assert Weight(Text(m.after)) == |m.after| + 1;
    assert WeightAll(sp) == 1 + |m.after| + 1;
  }

  /**
   * The walk, given the matcher of text values. A matched text node is replaced by
   * the three spliced nodes and the walk resumes after the first of them, so the
   * cite node and the `after` text are visited in turn; every other node is walked
   * into.
   */
  function Cites(n: Node, matcher: string -> Option<Match>): Node
    requires Shrinks(matcher)
    decreases Weight(n), 1, 0
  {
    n.(children := CitesAll(n.children, matcher))
  }

  function CitesAll(cs: seq<Node>, matcher: string -> Option<Match>): seq<Node>
    requires Shrinks(matcher)
    decreases WeightAll(cs), 2, 0
  {
    if cs == [] then []
    else
      assert [cs[0]] + cs[1..] == cs;
      match Found(cs[0], matcher)
      case Some(m) =>
        SpliceLighter(cs[0], cs[1..], matcher);
        [Text(m.before)] + CitesAll(Splice(m)[1..] + cs[1..], matcher)
      case None =>
        [if cs[0].kind == "text" then cs[0] else Cites(cs[0], matcher)] + CitesAll(cs[1..], matcher)
  }

  /** One step of the walk over siblings, for a text node that matches. */
  lemma CitesAllSplice(x: Node, rest: seq<Node>, matcher: string -> Option<Match>)
    requires Shrinks(matcher) && Found(x, matcher).Some?
    ensures CitesAll([x] + rest, matcher)
      == [Text(Found(x, matcher).value.before)] + CitesAll(Splice(Found(x, matcher).value)[1..] + rest, matcher)
  {
    assert ([x] + rest)[0] == x && ([x] + rest)[1..] == rest;
  }

  /** One step of the walk over siblings, for any other node. */
  lemma CitesAllKeep(x: Node, rest: seq<Node>, matcher: string -> Option<Match>)
    requires Shrinks(matcher) && Found(x, matcher).None?
    ensures CitesAll([x] + rest, matcher) == [if x.kind == "text" then x else Cites(x, matcher)] + CitesAll(rest, matcher)
  {
    assert ([x] + rest)[0] == x && ([x] + rest)[1..] == rest;
  }

  /** The walk of one node, in place on its children. */
  method CiteWalk(n: Node, matcher: string -> Option<Match>) returns (r: Node)
    requires Shrinks(matcher)
    decreases Weight(n), 1, 0
    ensures r == Cites(n, matcher)
  {
    var kids := CiteWalkAll(n.children, matcher);
    r := n.(children := kids);
  }

  /** The walk's invariant carried over the splice at a matching text node. */
  lemma SpliceStep(children: seq<Node>, i: nat, cs: seq<Node>, matcher: string -> Option<Match>)
    requires Shrinks(matcher) && i < |children| && Found(children[i], matcher).Some?
    requires children[..i] + CitesAll(children[i..], matcher) == CitesAll(cs, matcher)
    ensures
      var next := children[..i] + Splice(Found(children[i], matcher).value) + children[i + 1..];
      && i + 1 <= |next|
      && WeightAll(next[i + 1..]) < WeightAll(children[i..])
      && next[..i + 1] + CitesAll(next[i + 1..], matcher) == CitesAll(cs, matcher)
  {
    var x, rest, prefix := children[i], children[i + 1..], children[..i];
    assert children[i..] == [x] + rest;
    var m := Found(x, matcher).value;
    SpliceLighter(x, rest, matcher);
    CitesAllSplice(x, rest, matcher);
    ReplaceParts(prefix, Splice(m), rest);
    Regroup(prefix, Text(m.before), CitesAll(Splice(m)[1..] + rest, matcher), CitesAll(children[i..], matcher), CitesAll(cs, matcher));
  }

  /** The walk's invariant carried over a node that stays, with `y` what the walk makes of it. */
  lemma KeepStep(children: seq<Node>, i: nat, cs: seq<Node>, matcher: string -> Option<Match>, y: Node)
    requires Shrinks(matcher) && i < |children| && Found(children[i], matcher).None?
    requires y == if children[i].kind == "text" then children[i] else Cites(children[i], matcher)
    requires children[..i] + CitesAll(children[i..], matcher) == CitesAll(cs, matcher)
    ensures
      var next := children[..i] + [y] + children[i + 1..];
      && i + 1 <= |next|
      && WeightAll(next[i + 1..]) < WeightAll(children[i..])
      && next[..i + 1] + CitesAll(next[i + 1..], matcher) == CitesAll(cs, matcher)
  {
    var x, rest, prefix := children[i], children[i + 1..], children[..i];
    assert children[i..] == [x] + rest;
    WeightCons(x, rest);
    CitesAllKeep(x, rest, matcher);
    ReplaceParts(prefix, [y], rest);
    Regroup(prefix, y, CitesAll(rest, matcher), CitesAll(children[i..], matcher), CitesAll(cs, matcher));
  }

  /** The parts of a children array after the node at `|prefix|` is replaced by the run `l`. */
  lemma ReplaceParts(prefix: seq<Node>, l: seq<Node>, rest: seq<Node>)
    requires |l| >= 1
    ensures |prefix| + 1 <= |prefix + l + rest|
    ensures (prefix + l + rest)[..|prefix| + 1] == prefix + [l[0]]
    ensures (prefix + l + rest)[|prefix| + 1..] == l[1..] + rest
  {
  }

  /** Regrouping the walk's invariant after one node is emitted. */
  lemma Regroup(prefix: seq<Node>, first: Node, later: seq<Node>, here: seq<Node>, total: seq<Node>)
    requires prefix + here == total && here == [first] + later
    ensures (prefix + [first]) + later == total
  {
  }

  /** The walk of a list of siblings: the parent's children array spliced as the visit goes. */
  method CiteWalkAll(cs: seq<Node>, matcher: string -> Option<Match>) returns (children: seq<Node>)
    requires Shrinks(matcher)
    decreases WeightAll(cs), 2, 0
    ensures children == CitesAll(cs, matcher)
  {
    children := cs;
    var i := 0;
    while i < |children|
      invariant 0 <= i <= |children|
      invariant WeightAll(children[i..]) <= WeightAll(cs)
      invariant children[..i] + CitesAll(children[i..], matcher) == CitesAll(cs, matcher)
      decreases WeightAll(children[i..])
    {
      var x := children[i];
      var found := Found(x, matcher);
      if found.Some? {
        SpliceStep(children, i, cs, matcher);
        children := children[..i] + Splice(found.value) + children[i + 1..];
      } else {
        var y := x;
        if x.kind != "text" {
          assert children[i..] == [x] + children[i + 1..];
          WeightCons(x, children[i + 1..]);
          y := CiteWalk(x, matcher);
        }
        KeepStep(children, i, cs, matcher, y);
        children := children[..i] + [y] + children[i + 1..];
      }
      i := i + 1;
    }
    assert children[i..] == [];
  }

  /** `remarkCite`'s transformer: the walk with the citation expression as matcher. */
  method RemarkCite(tree: Node) returns (r: Node)
    ensures Shrinks(Recognize) && r == Cites(tree, Recognize)
  {
    RecognizeShrinks();
    r := CiteWalk(tree, Recognize);
  }

  /** With no text node that matches, the walk changes nothing. */
  lemma {:induction false} CitesNoMatch(n: Node, matcher: string -> Option<Match>)
    requires Shrinks(matcher)
    requires forall m :: m in PreOrder(n) ==> Found(m, matcher).None?
    ensures Cites(n, matcher) == n
    decreases n, 1
  {
    CitesAllNoMatch(n.children, matcher);
  }

  lemma {:induction false} CitesAllNoMatch(cs: seq<Node>, matcher: string -> Option<Match>)
    requires Shrinks(matcher)
    requires forall m :: m in PreOrderAll(cs) ==> Found(m, matcher).None?
    ensures CitesAll(cs, matcher) == cs
    decreases cs, 0
  {
    if cs != [] {
      assert PreOrderAll(cs) == PreOrder(cs[0]) + PreOrderAll(cs[1..]);
      assert cs[0] in PreOrder(cs[0]);
      CitesAllKeep(cs[0], cs[1..], matcher);
      assert [cs[0]] + cs[1..] == cs;
      if cs[0].kind != "text" {
        CitesNoMatch(cs[0], matcher);
      }
      CitesAllNoMatch(cs[1..], matcher);
    }
  }

  /**
   * A matched text node whose `after` holds no further match is replaced by exactly
   * the three spliced nodes, and the walk goes on with its next sibling.
   */
  lemma CitesSplicesThree(x: Node, rest: seq<Node>, matcher: string -> Option<Match>)
    requires Shrinks(matcher) && Found(x, matcher).Some?
    requires matcher(Found(x, matcher).value.after).None?
    ensures CitesAll([x] + rest, matcher) == Splice(Found(x, matcher).value) + CitesAll(rest, matcher)
  {
    var m := Found(x, matcher).value;
    var cite, after := CiteNode(m), Text(m.after);
    CitesAllSplice(x, rest, matcher);
    assert Splice(m)[1..] + rest == [cite] + ([after] + rest);
    assert Cites(cite, matcher) == cite by {
      assert CitesAll(cite.children, matcher) == [];
    }
    CitesAllKeep(cite, [after] + rest, matcher);
    assert Found(after, matcher).None? by {
      assert StrFieldOr(after, "value") == m.after;
    }
    CitesAllKeep(after, rest, matcher);
    ThreeInFront(Text(m.before), cite, after, CitesAll(rest, matcher));
  }

  lemma ThreeInFront(a: Node, b: Node, c: Node, tail: seq<Node>)
    ensures [a] + ([b] + ([c] + tail)) == [a, b, c] + tail
  {
  }

  lemma NoTerminatorConcat(a: string, b: string)
    ensures NoTerminator(a + b) <==> NoTerminator(a) && NoTerminator(b)
  {
    assert forall i :: 0 <= i < |a| ==> a[i] == (a + b)[i];
    assert forall i :: 0 <= i < |b| ==> b[i] == (a + b)[|a| + i];
  }

  /** A key holds no line terminator. */
  lemma KeyNoTerminator(k: string)
    requires IsKey(k)
    ensures NoTerminator(k)
  {
    forall i | 0 <= i < |k| ensures !IsLineTerminator(k[i]) {
      assert KeyCharOk(k, i);
    }
  }

  /** A match inside `after` is a match of the whole text, with a longer `before`, when nothing before it breaks the line. */
  lemma LaterMatch(v: string, m: Match, m2: Match)
    requires Matches(v, m) && Matches(m.after, m2)
    requires NoTerminator(BracketOf(m))
    ensures
      var later := Match(m.before + "@" + m.key + BracketOf(m) + m2.before, m2.key, m2.bracket, m2.after);
      Matches(v, later) && |later.before| > |m.before|
  {
    var head := m.before + "@" + m.key + BracketOf(m);
    KeyNoTerminator(m.key);
    assert NoTerminator("@");
    NoTerminatorConcat(m.before, "@");
    NoTerminatorConcat(m.before + "@", m.key);
    NoTerminatorConcat(m.before + "@" + m.key, BracketOf(m));
    NoTerminatorConcat(head, m2.before);
    var later := Match(head + m2.before, m2.key, m2.bracket, m2.after);
    assert BracketOf(later) == BracketOf(m2);
    assert v == later.before + "@" + later.key + BracketOf(later) + later.after;
  }

  /**
   * The `after` text is visited in turn, but it can only hold a second citation when
   * the bracket of the first spans a line break: otherwise that citation would have
   * been the last one on the line and found first.
   */
  lemma AfterRematchNeedsLineBreak(v: string)
    requires Recognize(v).Some? && Recognize(Recognize(v).value.after).Some?
    ensures Recognize(v).value.bracket.Some?
    ensures !NoTerminator(BracketText(Recognize(v).value.bracket.value))
  {
    var m := Recognize(v).value;
    var m2 := Recognize(m.after).value;
    if NoTerminator(BracketOf(m)) {
      LaterMatch(v, m, m2);
      RecognizeIsGreedy(v, Match(m.before + "@" + m.key + BracketOf(m) + m2.before, m2.key, m2.bracket, m2.after));
    }
  }
}
