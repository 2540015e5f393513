/** The two patterns that are masked, and the whole way to the model and back
    (scripts/esp_engine.py). `word` and `digit` are Python's classes \w and \d. */
module Tokens {
  import opened Text
  import opened Masking

  /** How the patterns compare letters: ASCII without case, and the four other letters
      Python takes for ASCII ones. */
  function Fold(c: char): char {
    if 'A' <= c <= 'Z' then (c as int + 32) as char
    else if c == '\U{0130}' || c == '\U{0131}' then 'i'
    else if c == '\U{017F}' then 's'
    else if c == '\U{212A}' then 'k'
    else c
  }

  /** Letter by letter: the alphabet without case, the four letters, and nothing else. */
  lemma FoldExactly(c: char)
    ensures 'A' <= c <= 'Z' ==> Fold(c) == "abcdefghijklmnopqrstuvwxyz"[c as int - 'A' as int]
    ensures Fold('\U{0130}') == Fold('\U{0131}') == 'i' && Fold('\U{017F}') == 's' && Fold('\U{212A}') == 'k'
    ensures Fold(c) != c <==> 'A' <= c <= 'Z' || c in {'\U{0130}', '\U{0131}', '\U{017F}', '\U{212A}'}
  {
    if 'A' <= c <= 'Z' { LetterOf(c as int - 'A' as int); }
  }

  lemma LetterOf(k: nat)
    requires k < 26
    ensures "abcdefghijklmnopqrstuvwxyz"[k] as int == 'a' as int + k
  {
  }

  predicate StartsFold(s: string, name: string) {
    |name| <= |s| && forall j | 0 <= j < |name| :: Fold(s[j]) == name[j]
  }

  function IndexOf(s: string, c: char): (i: nat)
    requires c in s
    ensures i < |s| && s[i] == c
    ensures forall j | 0 <= j < i :: s[j] != c
  {
    if s[0] == c then 0 else 1 + IndexOf(s[1..], c)
  }

  // ── Formatting tags ─────────────────────────────────────────────────────────

  const NAMES: seq<string> := ["font", "p", "br", "img", "div", "span", "b", "i", "u", "s", "a",
                               "h1", "h2", "h3", "h4", "h5", "h6", "center"]

  /** A tag name with a word boundary behind it. */
  predicate Named(word: char -> bool, s: string) {
    exists name | name in NAMES :: NamedBy(word, s, name)
  }

  predicate NamedBy(word: char -> bool, s: string, name: string) {
    StartsFold(s, name) && (|s| == |name| || !word(s[|name|]))
  }

  function NameStart(s: string): (p: nat)
    requires s != ""
    ensures 1 <= p <= 2 && p <= |s|
  {
    if |s| >= 2 && s[1] == '/' then 2 else 1
  }

  /** A tag reaches to the first '>'. */
  function TagLength(word: char -> bool, s: string): (n: nat)
    ensures n <= |s|
  {
    if s == "" || s[0] != '<' || !Named(word, s[NameStart(s)..]) || '>' !in s then 0
    else IndexOf(s, '>') + 1
  }

  function Tags(word: char -> bool): Matcher {
    (s: string) => TagLength(word, s)
  }

  lemma TagIsLocal(word: char -> bool, s: string, t: string)
    requires TagLength(word, s) > 0 && s[..TagLength(word, s)] <= t
    ensures TagLength(word, t) > 0
  {
    var i, p := IndexOf(s, '>'), NameStart(s);
    var name :| name in NAMES && NamedBy(word, s[p..], name);
    assert forall j | 0 <= j <= i :: s[..i + 1][j] == s[j] == t[j];
    NameEndsInside(s, p, name, i);
    assert t[i] == '>';
    assert NameStart(t) == p;
    NameCarries(word, s, t, p, name, i);
  }

  lemma NamesHaveNoEnd(name: string)
    requires name in NAMES
    ensures '>' !in name
  {
  }

  lemma NameEndsInside(s: string, p: nat, name: string, i: nat)
    requires 1 <= p <= 2 && p <= |s| && s[0] == '<' && (p == 2 ==> s[1] == '/') && name in NAMES
    requires StartsFold(s[p..], name) && i < |s| && s[i] == '>'
    ensures p + |name| <= i
  {
    NamesHaveNoEnd(name);
    forall x | p <= x < p + |name|
      ensures s[x] != '>'
    {
      assert Fold(s[p..][x - p]) == name[x - p] && name[x - p] in name;
    }
  }

  lemma NameCarries(word: char -> bool, s: string, t: string, p: nat, name: string, i: nat)
    requires p + |name| <= i < |s| && i < |t| && forall j | 0 <= j <= i :: s[j] == t[j]
    requires NamedBy(word, s[p..], name) && name in NAMES
    ensures Named(word, t[p..])
  {
    assert forall j | 0 <= j <= |name| :: t[p..][j] == s[p..][j];
    assert NamedBy(word, t[p..], name);
  }

  lemma TagEnds(word: char -> bool, s: string)
    requires TagLength(word, s) > 0
    ensures !InMarks(TAG, s[0]) && !Space(s[0]) && !InMarks(TAG, s[TagLength(word, s) - 1])
  {
    hide Named;
  }

  lemma TagsAreRegular(word: char -> bool)
    ensures Regular(Tags(word), TAG)
  {
    hide TagLength, InMarks, Space, Eager;
    var m := Tags(word);
    forall s, t | m(s) > 0 && s[..m(s)] <= t
      ensures m(t) > 0
    {
      TagIsLocal(word, s, t);
    }
    forall s | m(s) > 0
      ensures !InMarks(TAG, s[0]) && !Space(s[0]) && !InMarks(TAG, s[m(s) - 1])
    {
      TagEnds(word, s);
    }
  }

  // ── Game tokens ─────────────────────────────────────────────────────────────

  /** How many leading characters satisfy f. */
  function Run(f: char -> bool, s: string): (n: nat)
    ensures n <= |s|
    ensures n < |s| ==> !f(s[n])
    ensures n > 0 ==> f(s[0])
  {
    if s == "" || !f(s[0]) then 0 else 1 + Run(f, s[1..])
  }

  lemma {:induction false} RunIsLocal(f: char -> bool, x: string, y: string, n: nat)
    requires Run(f, x) < n <= |x| && n <= |y| && x[..n] == y[..n]
    ensures Run(f, y) == Run(f, x)
  {
    assert x[0] == x[..n][0] == y[..n][0] == y[0];
    if f(x[0]) {
      assert x[1..][..n - 1] == x[..n][1..] == y[..n][1..] == y[1..][..n - 1];
      RunIsLocal(f, x[1..], y[1..], n - 1);
    }
  }

  predicate Flag(c: char) {
    c in "-+0 #"
  }

  predicate Conversion(c: char) {
    c == '%' || Fold(c) in "diouxefgcsp"
  }

  predicate NoSpace(c: char) {
    !Space(c)
  }

  /** Where the conversion of a printf token at the start of s has to stand. */
  function ConversionAt(digit: char -> bool, s: string): (d: nat)
    requires s != ""
    ensures 1 <= d <= |s|
  {
    var a := 1 + Run(Flag, s[1..]);
    var b := a + Run(digit, s[a..]);
    var c := b + if b < |s| && s[b] == '.' then 1 else 0;
    c + Run(digit, s[c..])
  }

  function PrintfLength(digit: char -> bool, s: string): (n: nat)
    requires s != ""
    ensures n <= |s|
  {
    var d := ConversionAt(digit, s);
    if d < |s| && Conversion(s[d]) then d + 1 else 0
  }

  function TokenLength(digit: char -> bool, s: string): (n: nat)
    ensures n <= |s|
  {
    if s == "" then 0
    else if s[0] == '<' then (if '>' in s && IndexOf(s, '>') >= 2 then IndexOf(s, '>') + 1 else 0)
    else if s[0] == '%' then PrintfLength(digit, s)
    else if s[0] == '[' then
      (if StartsFold(s, "[pagebreak]") then 11 else if StartsFold(s, "[crlf]") then 6 else 0)
    else if s[0] == '$' then (if Run(NoSpace, s[1..]) > 0 then 1 + Run(NoSpace, s[1..]) else 0)
    else 0
  }

  function GameTokens(digit: char -> bool): Matcher {
    (s: string) => TokenLength(digit, s)
  }

  lemma PrintfIsLocal(digit: char -> bool, s: string, t: string)
    requires s != "" && PrintfLength(digit, s) > 0 && s[..PrintfLength(digit, s)] <= t
    ensures t != "" && PrintfLength(digit, t) > 0
  {
    hide Run, Conversion;
    var n := PrintfLength(digit, s);
    assert s[..n] == t[..n];
    var a := 1 + Run(Flag, s[1..]);
    RunAt(Flag, s, t, n, 1);
    RunAt(digit, s, t, n, a);
    var b := a + Run(digit, s[a..]);
    SameAt(s, t, n, b);
    var c := b + if b < |s| && s[b] == '.' then 1 else 0;
    RunAt(digit, s, t, n, c);
    SameAt(s, t, n, n - 1);
  }

  lemma SameAt(s: string, t: string, n: nat, k: nat)
    requires k < n <= |s| && n <= |t| && s[..n] == t[..n]
    ensures s[k] == t[k]
  {
    assert s[k] == s[..n][k] == t[..n][k] == t[k];
  }

  lemma RunAt(f: char -> bool, s: string, t: string, n: nat, k: nat)
    requires n <= |s| && n <= |t| && s[..n] == t[..n] && k < n && k + Run(f, s[k..]) < n
    ensures Run(f, t[k..]) == Run(f, s[k..])
  {
    hide Run;
    Shift(s, t, n, k);
    RunIsLocal(f, s[k..], t[k..], n - k);
  }

  lemma Shift(s: string, t: string, n: nat, k: nat)
    requires k <= n <= |s| && n <= |t| && s[..n] == t[..n]
    ensures s[k..][..n - k] == t[k..][..n - k]
  {
    assert s[k..][..n - k] == s[..n][k..] && t[k..][..n - k] == t[..n][k..];
  }

  lemma TokenIsLocal(digit: char -> bool, s: string, t: string)
    requires TokenLength(digit, s) > 0 && s[..TokenLength(digit, s)] <= t
    ensures TokenLength(digit, t) > 0
  {
    hide PrintfLength;
    var n := TokenLength(digit, s);
    assert forall j | 0 <= j < n :: s[j] == s[..n][j] == t[j];
    if s[0] == '%' {
      PrintfIsLocal(digit, s, t);
    } else if s[0] == '<' {
      assert t[n - 1] == '>';
    } else if s[0] == '$' {
      assert t[1..][0] == s[1..][0];
    }
  }

  lemma TokenEnds(digit: char -> bool, s: string)
    requires TokenLength(digit, s) > 0
    ensures !InMarks(TOKEN, s[0]) && !Space(s[0])
    ensures s[0] == '$' ==> TokenLength(digit, s) >= 2 && !Space(s[1])
    ensures s[0] != '$' ==> !InMarks(TOKEN, s[TokenLength(digit, s) - 1])
  {
    if s[0] == '[' && StartsFold(s, "[pagebreak]") {
      assert Fold(s[10]) == "[pagebreak]"[10];
    } else if s[0] == '[' {
      assert Fold(s[5]) == "[crlf]"[5];
    }
  }

  lemma DollarIsEager(digit: char -> bool)
    ensures Eager(GameTokens(digit), '$')
  {
  }

  lemma GameTokensAreRegular(digit: char -> bool)
    ensures Regular(GameTokens(digit), TOKEN)
  {
    hide TokenLength, Eager, InMarks, Space;
    var m := GameTokens(digit);
    DollarIsEager(digit);
    forall s, t | m(s) > 0 && s[..m(s)] <= t
      ensures m(t) > 0
    {
      TokenIsLocal(digit, s, t);
    }
    forall s | m(s) > 0
      ensures !InMarks(TOKEN, s[0]) && !Space(s[0])
      ensures !InMarks(TOKEN, s[m(s) - 1]) || (m(s) >= 2 && !Space(s[1]) && Eager(m, s[0]))
    {
      TokenEnds(digit, s);
    }
  }

  // ── To the model and back ───────────────────────────────────────────────────

  datatype Prepared = Prepared(text: string, tags: seq<string>, tokens: seq<string>)

  datatype Env = Env(word: char -> bool, digit: char -> bool)

  function Prepare(env: Env, text: string): Prepared {
    var tags := CutUp(Tags(env.word), text).tokens;
    var masked := Masked(text, TAG, tags, 0);
    var tokens := CutUp(GameTokens(env.digit), masked).tokens;
    Prepared(Masked(masked, TOKEN, tokens, 0), tags, tokens)
  }

  const ARROW := " → "

  function Cyrillic(s: string): nat {
    if s == "" then 0 else
    var n := |s| - 1;
    Cyrillic(s[..n]) + if '\U{0400}' <= s[n] <= '\U{04FF}' then 1 else 0
  }

  /** The text behind the last arrow. */
  function AfterLast(s: string): (r: string) {
    if s == "" then "" else if Contains(s[1..], ARROW) then AfterLast(s[1..])
    else if ARROW <= s then s[|ARROW|..] else s
  }

  /** A model's echo of the source dropped, when more than 15 percent of what follows the
      arrow is Cyrillic. */
  function StripEcho(text: string): string {
    if !Contains(text, ARROW) then text else
    var right := Strip(AfterLast(text));
    if right != "" && 100 * Cyrillic(right) > 15 * |right| then right else text
  }

  lemma {:induction false} LastArrow(left: string, right: string)
    requires !Contains((ARROW + right)[1..], ARROW)
    ensures Contains(left + ARROW + right, ARROW) && AfterLast(left + ARROW + right) == right
  {
    hide Contains;
    var s := left + ARROW + right;
    ContainsUnfolds(s);
    if left == "" {
      assert s == ARROW + right;
    } else {
      assert s[1..] == left[1..] + ARROW + right;
      LastArrow(left[1..], right);
    }
  }

  lemma ContainsUnfolds(s: string)
    ensures Contains(s, ARROW) <==> ARROW <= s || (s != "" && Contains(s[1..], ARROW))
  {
  }

  lemma {:induction false} CyrillicIs(s: string)
    ensures Cyrillic(s) == |set i | 0 <= i < |s| && '\U{0400}' <= s[i] <= '\U{04FF}'|
  {
    if s != "" {
      var n := |s| - 1;
      CyrillicIs(s[..n]);
      var a := set i | 0 <= i < n && '\U{0400}' <= s[..n][i] <= '\U{04FF}';
      var b := set i | 0 <= i < |s| && '\U{0400}' <= s[i] <= '\U{04FF}';
      assert b == a + if '\U{0400}' <= s[n] <= '\U{04FF}' then {n} else {};
    }
  }

  /** An echo of the source in front of the last arrow goes, when what follows the arrow,
      trimmed, has more than 15 Cyrillic characters in a hundred; otherwise, and without an
      arrow, the translation stays as it is. */
  lemma EchoIsStripped(left: string, right: string)
    requires !Contains((ARROW + right)[1..], ARROW)
    ensures var text, r := left + " → " + right, Strip(right);
            StripEcho(text) ==
            if r != "" && 100 * |set i | 0 <= i < |r| && '\U{0400}' <= r[i] <= '\U{04FF}'| > 15 * |r| then r else text
    ensures !Contains(left, " → ") ==> StripEcho(left) == left
  {
    hide Contains, Strip, AfterLast, Cyrillic;
    LastArrow(left, right);
    CyrillicIs(Strip(right));
  }

  function Restore(translation: string, p: Prepared): string {
    Restored(Restored(StripEcho(translation), TOKEN, p.tokens, 0), TAG, p.tags, 0)
  }

  /** Masking keeps a foreign part out. */
  lemma StillFree(m: Matcher, k: Kind, text: string, part: string)
    requires Proper(k) && Regular(m, k) && Unmarked(k, text) && part != "" && !Contains(text, part)
    requires forall j | 0 <= j < |part| :: part[j] != k.open
    requires !InMarks(k, part[0])
    ensures !Contains(Masked(text, k, CutUp(m, text).tokens, 0), part)
  {
    hide Regular, Unmarked, Contains, Masked, CutWell, InMarks, Proper, Woven;
    var c := CutUp(m, text);
    Starts(m, k);
    CutUpIsWell(m, text);
    MaskingPlaces(m, k, c.gaps, c.tokens);
    PiecesAreFree(c.gaps, c.tokens, part);
    FreeOfMarked(k, c.gaps, 0, part);
  }

  lemma Starts(m: Matcher, k: Kind)
    requires Regular(m, k)
    ensures m("") == 0 && forall t :: m(t) <= |t|
  {
    assert m("") <= |""|;
  }

  /** Masking is undone by restoring, one kind of token at a time. */
  lemma OneKind(m: Matcher, k: Kind, text: string)
    requires Proper(k) && Regular(m, k) && Unmarked(k, text)
    ensures var ts := CutUp(m, text).tokens; Restored(Masked(text, k, ts, 0), k, ts, 0) == text
  {
    hide Regular, Unmarked, Masked, Restored, CutWell, Proper, Woven;
    var c := CutUp(m, text);
    Starts(m, k);
    CutUpIsWell(m, text);
    MaskingPlaces(m, k, c.gaps, c.tokens);
    RestoringUnmasks(k, c.gaps, c.tokens);
  }

  lemma KindsApart(j: nat)
    ensures Proper(TAG) && Proper(TOKEN)
    ensures !InMarks(TAG, Mark(TOKEN, j)[0]) && forall x | 0 <= x < |Mark(TOKEN, j)| :: Mark(TOKEN, j)[x] != TAG.open
  {
    MarkChars(TOKEN, j);
    assert !InMarks(TOKEN, TAG.open);
  }

  /** What is sent to the model comes back as the text, for every text with no placeholder
      and no arrow of its own. */
  lemma MaskingIsUndone(env: Env, text: string)
    requires Unmarked(TAG, text) && Unmarked(TOKEN, text) && !Contains(text, ARROW)
    ensures Restore(Prepare(env, text).text, Prepare(env, text)) == text
  {
    hide Regular, Contains, Masked, Restored, CutUp;
    var tagger, tokenizer := Tags(env.word), GameTokens(env.digit);
    TagsAreRegular(env.word);
    GameTokensAreRegular(env.digit);
    KindsApart(0);
    var masked := Masked(text, TAG, CutUp(tagger, text).tokens, 0);
    forall j: nat
      ensures !Contains(masked, Mark(TOKEN, j))
    {
      KindsApart(j);
      StillFree(tagger, TAG, text, Mark(TOKEN, j));
    }
    StillFree(tagger, TAG, text, ARROW);
    StillFree(tokenizer, TOKEN, masked, ARROW);
    OneKind(tokenizer, TOKEN, masked);
    OneKind(tagger, TAG, text);
  }

  // ── The code ────────────────────────────────────────────────────────────────

  method MaskAll(text: string, k: Kind, ts: seq<string>) returns (masked: string)
    ensures masked == Masked(text, k, ts, 0)
  {
    masked := text;
    assert ts[0..] == ts;
    for i := 0 to |ts|
      invariant Masked(masked, k, ts[i..], i) == Masked(text, k, ts, 0)
    {
      MaskedNext(masked, k, ts, i);
      masked := ReplaceFirst(masked, ts[i], Mark(k, i));
    }
  }

  method PrepareForAi(env: Env, texts: seq<string>) returns (out: seq<Prepared>)
    ensures |out| == |texts| && forall i | 0 <= i < |texts| :: out[i] == Prepare(env, texts[i])
  {
    hide Masked, CutUp;
    out := [];
    for i := 0 to |texts|
      invariant |out| == i && forall j | 0 <= j < i :: out[j] == Prepare(env, texts[j])
    {
      var tags := CutUp(Tags(env.word), texts[i]).tokens;
      var masked := MaskAll(texts[i], TAG, tags);
      var tokens := CutUp(GameTokens(env.digit), masked).tokens;
      var hidden := MaskAll(masked, TOKEN, tokens);
      out := out + [Prepared(hidden, tags, tokens)];
    }
  }

  lemma RestoredNext(s: string, k: Kind, ts: seq<string>, i: nat)
    requires i < |ts|
    ensures Restored(s, k, ts[i..], i) == Restored(ReplaceAll(s, Mark(k, i), ts[i]), k, ts[i + 1..], i + 1)
  {
    assert ts[i..][1..] == ts[i + 1..];
  }

  method PutBack(text: string, k: Kind, ts: seq<string>) returns (out: string)
    ensures out == Restored(text, k, ts, 0)
  {
    out := text;
    assert ts[0..] == ts;
    for i := 0 to |ts|
      invariant Restored(out, k, ts[i..], i) == Restored(text, k, ts, 0)
    {
      RestoredNext(out, k, ts, i);
      out := ReplaceAll(out, Mark(k, i), ts[i]);
    }
  }

  /** Translations beyond the prepared texts, or the other way round, are left out. */
  method RestoreFromAi(translations: seq<string>, prepared: seq<Prepared>) returns (out: seq<string>)
    ensures |out| == if |translations| < |prepared| then |translations| else |prepared|
    ensures forall i | 0 <= i < |out| :: out[i] == Restore(translations[i], prepared[i])
  {
    hide Restored, StripEcho;
    out := [];
    while |out| < |translations| && |out| < |prepared|
      invariant |out| <= |translations| && |out| <= |prepared|
      invariant forall i | 0 <= i < |out| :: out[i] == Restore(translations[i], prepared[i])
    {
      var i := |out|;
      var text := PutBack(StripEcho(translations[i]), TOKEN, prepared[i].tokens);
      text := PutBack(text, TAG, prepared[i].tags);
      out := out + [text];
    }
  }

  /** Sent and put back unchanged, every text is itself again. */
  method RoundTrip(env: Env, texts: seq<string>) returns (out: seq<string>)
    requires forall t | t in texts :: Unmarked(TAG, t) && Unmarked(TOKEN, t) && !Contains(t, ARROW)
    ensures out == texts
  {
    hide Prepare, Restore, Unmarked, Contains;
    var prepared := PrepareForAi(env, texts);
    var sent := seq(|prepared|, i requires 0 <= i < |prepared| => prepared[i].text);
    out := RestoreFromAi(sent, prepared);
    forall i | 0 <= i < |texts|
      ensures out[i] == texts[i]
    {
      MaskingIsUndone(env, texts[i]);
    }
  }
}
