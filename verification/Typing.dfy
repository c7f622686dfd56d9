/** Typing a text a few characters at a time, without ever stopping inside a tag. */
module Typing {
  import opened TableTypes

  // ---------------------------------------------------------------- strings

  /** Position of the first occurrence of a character; -1 if there is none. */
  function IndexOf(s: string, c: char): (i: int)
    ensures -1 <= i < |s|
    ensures i >= 0 ==> s[i] == c && forall k :: 0 <= k < i ==> s[k] != c
    ensures i < 0 ==> forall k :: 0 <= k < |s| ==> s[k] != c
  {
    IndexFrom(s, c, 0)
  }

  function IndexFrom(s: string, c: char, from: nat): (i: int)
    requires from <= |s|
    ensures i == -1 || from <= i < |s|
    ensures i >= 0 ==> s[i] == c && forall k :: from <= k < i ==> s[k] != c
    ensures i < 0 ==> forall k :: from <= k < |s| ==> s[k] != c
    decreases |s| - from
  {
    if from == |s| then -1 else if s[from] == c then from else IndexFrom(s, c, from + 1)
  }

  predicate OccursAt(s: string, p: string, i: nat) {
    i + |p| <= |s| && forall j :: 0 <= j < |p| ==> s[i + j] == p[j]
  }

  /** Position of the first occurrence of a text; -1 if there is none. */
  function Find(s: string, p: string, from: nat): (i: int)
    requires from <= |s|
    ensures -1 <= i
    decreases |s| - from
  {
    if OccursAt(s, p, from) then from
    else if from == |s| then -1
    else Find(s, p, from + 1)
  }

  lemma {:induction false} FindIsFirst(s: string, p: string, from: nat)
    requires from <= |s|
    ensures var i := Find(s, p, from);
      if i >= 0 then from <= i && OccursAt(s, p, i) && forall k :: from <= k < i ==> !OccursAt(s, p, k)
      else forall k :: from <= k <= |s| ==> !OccursAt(s, p, k)
    decreases |s| - from
  {
    if !OccursAt(s, p, from) && from < |s| {
      FindIsFirst(s, p, from + 1);
    }
  }

  function Take(s: string, n: nat): (t: string)
    ensures t <= s && |t| == if n <= |s| then n else |s|
  {
    if n <= |s| then s[..n] else s
  }

  // ---------------------------------------------------------------- tags

  /** Every tag that is opened is closed, and nothing else is. */
  predicate WellFormed(s: string)
    decreases |s|
  {
    var lt, gt := IndexOf(s, '<'), IndexOf(s, '>');
    if lt < 0 then gt < 0 else lt < gt && WellFormed(s[gt + 1..])
  }

  predicate Plain(s: string) {
    forall k :: 0 <= k < |s| ==> s[k] != '<' && s[k] != '>'
  }

  datatype Tag = Tag(index: nat, value: string)
  datatype Extraction = Extraction(tags: seq<Tag>, rest: string)

  function Without(s: string, lt: nat, gt: nat): string
    requires lt < gt < |s|
  {
    s[..lt] + s[gt + 1..]
  }

  /** Whether a tag begins among the first characters. */
  predicate TagAhead(s: string, window: nat) {
    IndexOf(Take(s, window), '<') >= 0
  }

  /** Takes out the tags that begin among the first characters; never ends on an unclosed or stray bracket. */
  function Extract(s: string, window: nat): (e: Option<Extraction>)
    ensures e.Some? ==> !TagAhead(e.value.rest, window)
    decreases |s|
  {
    if !TagAhead(s, window) then Some(Extraction([], s))
    else
      var lt, gt := IndexOf(s, '<'), IndexOf(s, '>');
      if gt < lt then None
      else
        assert s[lt] == '<' && s[gt] == '>';
        var e := Extract(Without(s, lt, gt), window);
        if e.None? then None
        else Some(Extraction([Tag(lt, s[lt..gt + 1])] + e.value.tags, e.value.rest))
  }

  function Insert(s: string, tag: Tag): string {
    if |s| > tag.index then s[..tag.index] + tag.value + s[tag.index..] else s
  }

  /** Puts the tags back, the last one first. */
  function Reinsert(s: string, tags: seq<Tag>): string {
    if tags == [] then s else Insert(Reinsert(s, tags[1..]), tags[0])
  }

  // ---------------------------------------------------------------- one typing frame

  datatype Config = Config(maxCharacters: nat, pause: string, pauseFactor: nat, checkHtml: bool)

  /** At least one character at a time, and a pause text that can be recognised. */
  predicate ValidConfig(c: Config) {
    c.maxCharacters > 0 && c.pause != ""
  }

  /** Whether a pause begins early enough to stop there. */
  predicate EndsSoon(rest: string, c: Config)
    requires ValidConfig(c)
  {
    Find(Take(rest, c.maxCharacters + |c.pause| - 1), c.pause, 0) >= 0
  }

  /** Up to and with the first pause. */
  function Sentence(rest: string, pause: string): string
    requires pause != ""
  {
    Take(rest, Find(rest, pause, 0) + |pause|)
  }

  /** The rest of the sentence if it ends soon, or else as many characters as were drawn. */
  function Choose(rest: string, c: Config, chunk: nat): string
    requires ValidConfig(c)
  {
    if EndsSoon(rest, c) then Sentence(rest, c.pause) else Take(rest, chunk)
  }

  /** The characters of one typing frame; none if extracting the tags never ends. */
  function Characters(remaining: string, c: Config, chunk: nat): Option<string>
    requires ValidConfig(c)
  {
    var e := if c.checkHtml then Extract(remaining, c.maxCharacters) else Some(Extraction([], remaining));
    if e.None? then None else Some(Reinsert(Choose(e.value.rest, c, chunk), e.value.tags))
  }

  // ---------------------------------------------------------------- characters are a prefix

  lemma {:induction false} InsertKeepsPrefix(s: string, lt: nat, gt: nat, t: string)
    requires lt < gt < |s| && t <= Without(s, lt, gt)
    ensures Insert(t, Tag(lt, s[lt..gt + 1])) <= s
  {
    var w := Without(s, lt, gt);
    if |t| > lt {
      assert t[..lt] == s[..lt] && t[lt..] <= s[gt + 1..] by {
        assert w[lt..] == s[gt + 1..];
      }
      assert s == s[..lt] + s[lt..gt + 1] + s[gt + 1..];
    } else {
      assert w[..lt] == s[..lt];
      assert t == s[..|t|];
    }
  }

  lemma {:induction false} BracketPositions(s: string, window: nat)
    ensures IndexOf(s, '<') >= 0 ==> IndexOf(s, '<') != IndexOf(s, '>')
    ensures TagAhead(s, window) ==> IndexOf(s, '<') >= 0
  {
    var lt, gt := IndexOf(s, '<'), IndexOf(s, '>');
    assert lt >= 0 ==> s[lt] == '<';
    assert gt >= 0 ==> s[gt] == '>';
  }

  /** One round of the extraction. */
  lemma {:induction false} ExtractStep(s: string, window: nat) returns (lt: nat, gt: nat, inner: Extraction)
    requires Extract(s, window).Some? && TagAhead(s, window)
    ensures IndexOf(s, '<') == lt && IndexOf(s, '>') == gt && lt < gt < |s|
    ensures Extract(Without(s, lt, gt), window) == Some(inner)
    ensures Extract(s, window).value == Extraction([Tag(lt, s[lt..gt + 1])] + inner.tags, inner.rest)
  {
    BracketPositions(s, window);
    if IndexOf(s, '>') < IndexOf(s, '<') {
      ExtractStuck(s, window);
    }
    lt, gt := IndexOf(s, '<'), IndexOf(s, '>');
    ExtractRound(s, window, lt, gt);
    inner := Extract(Without(s, lt, gt), window).value;
  }

  lemma {:induction false} ReinsertStep(t: string, tag: Tag, tags: seq<Tag>)
    ensures Reinsert(t, [tag] + tags) == Insert(Reinsert(t, tags), tag)
  {
    assert ([tag] + tags)[1..] == tags;
  }

  lemma {:induction false} ReinsertIsPrefix(s: string, window: nat, t: string)
    requires Extract(s, window).Some? && t <= Extract(s, window).value.rest
    ensures Reinsert(t, Extract(s, window).value.tags) <= s
    decreases |s|
  {
    if TagAhead(s, window) {
      var lt, gt, inner := ExtractStep(s, window);
      ReinsertIsPrefix(Without(s, lt, gt), window, t);
      ReinsertStep(t, Tag(lt, s[lt..gt + 1]), inner.tags);
      InsertKeepsPrefix(s, lt, gt, Reinsert(t, inner.tags));
    }
  }

  lemma {:induction false} OccursInWindow(s: string, p: string, n: nat, k: nat)
    ensures OccursAt(Take(s, n), p, k) <==> OccursAt(s, p, k) && k + |p| <= |Take(s, n)|
  {
    var t := Take(s, n);
    if k + |p| <= |t| {
      assert t[k..k + |p|] == s[k..k + |p|];
    }
  }

  lemma {:induction false} FindIs(s: string, p: string, i: nat)
    requires OccursAt(s, p, i) && forall k :: 0 <= k < i ==> !OccursAt(s, p, k)
    ensures Find(s, p, 0) == i
  {
    FindIsFirst(s, p, 0);
  }

  /** What is found among the first characters is found in the whole text, at the same place. */
  lemma {:induction false} FoundInWindow(s: string, p: string, n: nat)
    requires Find(Take(s, n), p, 0) >= 0
    ensures Find(s, p, 0) == Find(Take(s, n), p, 0)
  {
    var i := Find(Take(s, n), p, 0);
    FindIsFirst(Take(s, n), p, 0);
    forall k | 0 <= k <= i ensures OccursAt(s, p, k) <==> OccursAt(Take(s, n), p, k) {
      OccursInWindow(s, p, n, k);
      OccursInWindow(s, p, n, i);
    }
    FindIs(s, p, i);
  }

  lemma {:induction false} ChosenIsPrefix(rest: string, c: Config, chunk: nat)
    requires ValidConfig(c)
    ensures Choose(rest, c, chunk) <= rest
    ensures chunk > 0 && rest != "" ==> Choose(rest, c, chunk) != ""
  {
    if EndsSoon(rest, c) {
      FoundInWindow(rest, c.pause, c.maxCharacters + |c.pause| - 1);
    }
  }

  /** Whatever is drawn, the characters typed in one frame are the next characters of the text. */
  lemma {:induction false} CharactersArePrefix(remaining: string, c: Config, chunk: nat)
    requires ValidConfig(c) && Characters(remaining, c, chunk).Some?
    ensures Characters(remaining, c, chunk).value <= remaining
  {
    if c.checkHtml {
      ChosenIsPrefix(Extract(remaining, c.maxCharacters).value.rest, c, chunk);
      ReinsertIsPrefix(remaining, c.maxCharacters, Choose(Extract(remaining, c.maxCharacters).value.rest, c, chunk));
    } else {
      ChosenIsPrefix(remaining, c, chunk);
    }
  }

  // ---------------------------------------------------------------- characters end outside tags

  predicate NoBracketBefore(s: string, n: nat)
    requires n <= |s|
  {
    forall k :: 0 <= k < n ==> s[k] != '<' && s[k] != '>'
  }

  lemma {:induction false} FirstIs(s: string, c: char, i: nat)
    requires i < |s| && s[i] == c && forall k :: 0 <= k < i ==> s[k] != c
    ensures IndexOf(s, c) == i
  {
  }

  lemma {:induction false} IndexOfAfter(s: string, n: nat, c: char)
    requires n <= |s| && forall k :: 0 <= k < n ==> s[k] != c
    ensures IndexOf(s[n..], c) == if IndexOf(s, c) < 0 then -1 else IndexOf(s, c) - n
  {
    var i, r := IndexOf(s, c), s[n..];
    if i >= 0 {
      assert r[i - n] == c;
      FirstIs(r, c, i - n);
    }
  }

  /** Dropping characters before the first bracket changes nothing. */
  lemma {:induction false} DropPlain(s: string, n: nat)
    requires n <= |s| && NoBracketBefore(s, n)
    ensures WellFormed(s[n..]) <==> WellFormed(s)
  {
    hide IndexOf;
    IndexOfAfter(s, n, '<');
    IndexOfAfter(s, n, '>');
    var gt := IndexOf(s, '>');
    if gt >= 0 {
      assert s[n..][gt - n + 1..] == s[gt + 1..];
    }
  }

  /** Before the first opening bracket of a well-formed text there is no closing one. */
  lemma {:induction false} PlainBeforeFirst(s: string, n: nat)
    requires WellFormed(s) && n <= |s| && forall k :: 0 <= k < n ==> s[k] != '<'
    ensures NoBracketBefore(s, n)
  {
    var lt, gt := IndexOf(s, '<'), IndexOf(s, '>');
    assert lt < 0 || n <= lt;
    assert gt < 0 || lt < gt;
  }

  lemma {:induction false} NoBracketBeforeTag(s: string)
    requires 0 <= IndexOf(s, '<') < IndexOf(s, '>')
    ensures NoBracketBefore(s, IndexOf(s, '<'))
  {
  }

  lemma {:induction false} WellFormedStep(s: string, lt: nat, gt: nat)
    requires lt < gt < |s| && lt == IndexOf(s, '<') && gt == IndexOf(s, '>')
    ensures WellFormed(s) <==> WellFormed(s[gt + 1..])
  {
  }

  /** A text is well formed if its first tag is closed in order and the rest is well formed without it. */
  lemma {:induction false} WithoutTag(s: string, lt: nat, gt: nat)
    requires lt < gt < |s| && lt == IndexOf(s, '<') && gt == IndexOf(s, '>')
    ensures WellFormed(Without(s, lt, gt)) <==> WellFormed(s)
  {
    var w := Without(s, lt, gt);
    NoBracketBeforeTag(s);
    assert forall k :: 0 <= k < lt ==> w[k] == s[k];
    WellFormedStep(s, lt, gt);
    DropPlain(w, lt);
    assert w[lt..] == s[gt + 1..];
  }

  lemma {:induction false} WithoutKeepsEnd(s: string, lt: nat, gt: nat)
    requires lt < gt < |s| && s[gt] == '>' && s[|s| - 1] != '>'
    ensures Without(s, lt, gt) != "" && Without(s, lt, gt)[|Without(s, lt, gt)| - 1] == s[|s| - 1]
  {
  }

  /** The extraction ends on every well-formed text, and leaves a well-formed one. */
  lemma {:induction false} ExtractEnds(s: string, window: nat)
    requires WellFormed(s)
    ensures Extract(s, window).Some? && WellFormed(Extract(s, window).value.rest)
    ensures s != "" && s[|s| - 1] != '>' ==> Extract(s, window).value.rest != ""
    decreases |s|
  {
    if TagAhead(s, window) {
      BracketPositions(s, window);
      var lt, gt := IndexOf(s, '<'), IndexOf(s, '>');
      WithoutTag(s, lt, gt);
      ExtractEnds(Without(s, lt, gt), window);
      if s[|s| - 1] != '>' {
        WithoutKeepsEnd(s, lt, gt);
      }
    }
  }

  /** Ends outside a tag, and on a character that is not a bracket. */
  ghost predicate EndsOutside(s: string) {
    WellFormed(s) && (s != "" ==> s[|s| - 1] != '>')
  }

  /** Where the brackets are after a tag has been put back. */
  lemma {:induction false} InsertedBrackets(s: string, lt: nat, gt: nat, t: string)
    requires lt < gt < |s| && lt == IndexOf(s, '<') && gt == IndexOf(s, '>')
    requires t <= Without(s, lt, gt) && |t| > lt
    ensures var r := Insert(t, Tag(lt, s[lt..gt + 1]));
      && IndexOf(r, '<') == lt && IndexOf(r, '>') == gt && r[gt + 1..] == t[lt..]
      && r[|r| - 1] == t[|t| - 1] && NoBracketBefore(t, lt)
  {
    var r := Insert(t, Tag(lt, s[lt..gt + 1]));
    InsertKeepsPrefix(s, lt, gt, t);
    InsertedText(t, s[lt..gt + 1], lt);
    hide Without, Insert;
    assert forall k :: 0 <= k < |r| ==> r[k] == s[k];
    NoBracketBeforeTag(s);
    FirstIs(r, '<', lt);
    FirstIs(r, '>', gt);
    assert forall k :: 0 <= k < lt ==> t[k] == r[k];
  }

  lemma {:induction false} InsertedText(t: string, tag: string, at: nat)
    requires |t| > at
    ensures var r := Insert(t, Tag(at, tag));
      && |r| == |t| + |tag| && r[at + |tag|..] == t[at..] && r[|r| - 1] == t[|t| - 1]
      && forall k :: 0 <= k < at ==> r[k] == t[k]
  {
  }

  lemma {:induction false} InsertEndsOutside(s: string, lt: nat, gt: nat, t: string)
    requires lt < gt < |s| && lt == IndexOf(s, '<') && gt == IndexOf(s, '>')
    requires t <= Without(s, lt, gt) && EndsOutside(t)
    ensures EndsOutside(Insert(t, Tag(lt, s[lt..gt + 1])))
    ensures Insert(t, Tag(lt, s[lt..gt + 1])) == "" <==> t == ""
  {
    if |t| > lt {
      InsertedBrackets(s, lt, gt, t);
      DropPlain(t, lt);
    }
  }

  lemma {:induction false} ReinsertEndsOutside(s: string, window: nat, t: string)
    requires Extract(s, window).Some? && t <= Extract(s, window).value.rest && EndsOutside(t)
    ensures var r := Reinsert(t, Extract(s, window).value.tags); EndsOutside(r) && (r == "" <==> t == "")
    decreases |s|
  {
    if TagAhead(s, window) {
      var lt, gt, inner := ExtractStep(s, window);
      ReinsertEndsOutside(Without(s, lt, gt), window, t);
      ReinsertIsPrefix(Without(s, lt, gt), window, t);
      ReinsertStep(t, Tag(lt, s[lt..gt + 1]), inner.tags);
      InsertEndsOutside(s, lt, gt, Reinsert(t, inner.tags));
    }
  }

  lemma {:induction false} PlainEndsOutside(s: string)
    requires Plain(s)
    ensures EndsOutside(s)
  {
  }

  lemma {:induction false} PlainPrefix(s: string, n: nat, window: nat)
    requires WellFormed(s) && !TagAhead(s, window) && n <= window && n <= |s|
    ensures Plain(s[..n])
  {
    hide WellFormed, IndexOf;
    var t := Take(s, window);
    forall k | 0 <= k < n ensures s[k] != '<' {
      assert s[k] == t[k];
    }
    PlainBeforeFirst(s, n);
    assert forall k :: 0 <= k < n ==> s[..n][k] == s[k];
  }

  /** What is chosen from text without a tag among its first characters has no bracket at all. */
  lemma {:induction false} ChosenIsPlain(rest: string, c: Config, chunk: nat)
    requires ValidConfig(c) && Plain(c.pause) && chunk <= c.maxCharacters && WellFormed(rest) &&
      !TagAhead(rest, c.maxCharacters)
    ensures Plain(Choose(rest, c, chunk))
  {
    if EndsSoon(rest, c) {
      SentenceIsPlain(rest, c);
    } else {
      TakeIsPlain(rest, chunk, c.maxCharacters);
    }
  }

  lemma {:induction false} TakeIsPlain(s: string, n: nat, max: nat)
    requires n <= max && WellFormed(s) && !TagAhead(s, max)
    ensures Plain(Take(s, n))
  {
    PlainPrefix(s, |Take(s, n)|, max);
  }

  lemma {:induction false} SentenceIsPlain(s: string, c: Config)
    requires ValidConfig(c) && Plain(c.pause) && WellFormed(s) && !TagAhead(s, c.maxCharacters) && EndsSoon(s, c)
    ensures Plain(Sentence(s, c.pause))
  {
    var found := PauseInWindow(s, c.pause, c.maxCharacters + |c.pause| - 1);
    var head, sentence := s[..found], Sentence(s, c.pause);
    assert found <= c.maxCharacters;
    assert sentence == head + c.pause;
    PlainPrefix(s, found, c.maxCharacters);
    assert Plain(head);
    PlainJoined(head, c.pause);
    assert Plain(sentence);
  }

  lemma {:induction false} PlainJoined(a: string, b: string)
    requires Plain(a) && Plain(b)
    ensures Plain(a + b)
  {
  }

  /** A text found among the first characters ends there, and what is typed ends with it. */
  lemma {:induction false} PauseInWindow(s: string, p: string, n: nat) returns (found: nat)
    requires Find(Take(s, n), p, 0) >= 0
    ensures found + |p| <= n && found + |p| <= |s| && Take(s, Find(s, p, 0) + |p|) == s[..found] + p
  {
    hide OccursAt, Find;
    FoundInWindow(s, p, n);
    FoundEarly(s, p, n);
    found := Find(s, p, 0);
    FindIsFirst(s, p, 0);
    SentenceIs(s, p, found);
  }

  lemma {:induction false} FoundEarly(s: string, p: string, n: nat)
    requires Find(Take(s, n), p, 0) >= 0
    ensures Find(Take(s, n), p, 0) + |p| <= n && Find(Take(s, n), p, 0) + |p| <= |s|
  {
    FindIsFirst(Take(s, n), p, 0);
  }

  lemma {:induction false} SentenceIs(s: string, p: string, i: nat)
    requires OccursAt(s, p, i)
    ensures Take(s, i + |p|) == s[..i] + p
  {
    assert s[..i + |p|] == s[..i] + s[i..i + |p|];
  }

  /** On well-formed text a typing frame always ends, outside a tag, and types something if any text is left
      besides tags. */
  lemma {:induction false} CharactersEndOutside(remaining: string, c: Config, chunk: nat)
    requires ValidConfig(c) && Plain(c.pause) && c.checkHtml && 0 < chunk <= c.maxCharacters && WellFormed(remaining)
    ensures Characters(remaining, c, chunk).Some? && EndsOutside(Characters(remaining, c, chunk).value)
    ensures remaining != "" && remaining[|remaining| - 1] != '>' ==> Characters(remaining, c, chunk).value != ""
  {
    ExtractEnds(remaining, c.maxCharacters);
    var rest := Extract(remaining, c.maxCharacters).value.rest;
    ChosenIsPrefix(rest, c, chunk);
    ChosenIsPlain(rest, c, chunk);
    PlainEndsOutside(Choose(rest, c, chunk));
    ReinsertEndsOutside(remaining, c.maxCharacters, Choose(rest, c, chunk));
  }

  // ---------------------------------------------------------------- frame after frame

  datatype Progress = Progress(target: string, text: string, typed: nat)

  /** What has been typed is the beginning of the text. */
  ghost predicate Builds(p: Progress) {
    p.typed <= |p.text| && p.target == p.text[..p.typed]
  }

  function TypeFrame(p: Progress, c: Config, chunk: nat): Option<Progress>
    requires ValidConfig(c) && p.typed <= |p.text|
  {
    var characters := Characters(p.text[p.typed..], c, chunk);
    if characters.None? then None
    else Some(Progress(p.target + characters.value, p.text, p.typed + |characters.value|))
  }

  function TypeFrames(p: Progress, c: Config, chunks: seq<nat>): Option<Progress>
    requires ValidConfig(c)
  {
    if chunks == [] then Some(p)
    else
      var before := TypeFrames(p, c, chunks[..|chunks| - 1]);
      if before.None? || before.value.typed > |before.value.text| then None
      else TypeFrame(before.value, c, chunks[|chunks| - 1])
  }

  lemma {:induction false} FrameBuilds(p: Progress, c: Config, chunk: nat)
    requires ValidConfig(c) && Builds(p) && TypeFrame(p, c, chunk).Some?
    ensures Builds(TypeFrame(p, c, chunk).value) && TypeFrame(p, c, chunk).value.text == p.text
  {
    var remaining := p.text[p.typed..];
    CharactersArePrefix(remaining, c, chunk);
    var n := |Characters(remaining, c, chunk).value|;
    assert p.text[..p.typed + n] == p.text[..p.typed] + remaining[..n];
  }

  /** After every frame, for every choice of chunks, what has been typed is the beginning of the text. */
  lemma {:induction false} TypingBuilds(p: Progress, c: Config, chunks: seq<nat>)
    requires ValidConfig(c) && Builds(p) && TypeFrames(p, c, chunks).Some?
    ensures Builds(TypeFrames(p, c, chunks).value) && TypeFrames(p, c, chunks).value.text == p.text
  {
    if chunks != [] {
      var n := |chunks| - 1;
      TypingBuilds(p, c, chunks[..n]);
      FrameBuilds(TypeFrames(p, c, chunks[..n]).value, c, chunks[n]);
    }
  }

  lemma {:induction false} FirstInPrefix(s: string, t: string, c: char)
    requires t <= s && IndexOf(t, c) >= 0
    ensures IndexOf(s, c) == IndexOf(t, c)
  {
    assert forall k :: 0 <= k < |t| ==> t[k] == s[k];
    FirstIs(s, c, IndexOf(t, c));
  }

  lemma {:induction false} NoBracketsMeansPlain(t: string)
    requires WellFormed(t) && IndexOf(t, '<') < 0
    ensures NoBracketBefore(t, |t|)
  {
  }

  /** What follows a part that ends outside a tag is well formed too. */
  lemma {:induction false} RestIsWellFormed(s: string, t: string)
    requires WellFormed(s) && t <= s && WellFormed(t)
    ensures WellFormed(s[|t|..])
    decreases |s|
  {
    var lt, gt := IndexOf(t, '<'), IndexOf(t, '>');
    if lt < 0 {
      NoBracketsMeansPlain(t);
      assert forall k :: 0 <= k < |t| ==> t[k] == s[k];
      DropPlain(s, |t|);
    } else {
      FirstInPrefix(s, t, '<');
      FirstInPrefix(s, t, '>');
      WellFormedStep(s, lt, gt);
      WellFormedStep(t, lt, gt);
      assert t[gt + 1..] <= s[gt + 1..];
      RestIsWellFormed(s[gt + 1..], t[gt + 1..]);
      assert s[gt + 1..][|t[gt + 1..]|..] == s[|t|..];
    }
  }

  lemma {:induction false} JoinPlain(a: string, b: string)
    requires NoBracketBefore(a, |a|)
    ensures WellFormed(a + b) <==> WellFormed(b)
  {
    assert forall k :: 0 <= k < |a| ==> (a + b)[k] == a[k];
    DropPlain(a + b, |a|);
    assert (a + b)[|a|..] == b;
  }

  lemma {:induction false} JoinIsWellFormed(a: string, b: string)
    requires WellFormed(a) && WellFormed(b)
    ensures WellFormed(a + b)
    decreases |a|
  {
    var lt, gt := IndexOf(a, '<'), IndexOf(a, '>');
    if lt < 0 {
      NoBracketsMeansPlain(a);
      JoinPlain(a, b);
    } else {
      WellFormedStep(a, lt, gt);
      JoinIsWellFormed(a[gt + 1..], b);
      JoinTag(a, b, lt, gt);
    }
  }

  lemma {:induction false} JoinTag(a: string, b: string, lt: nat, gt: nat)
    requires lt < gt < |a| && lt == IndexOf(a, '<') && gt == IndexOf(a, '>')
    requires WellFormed(a[gt + 1..] + b)
    ensures WellFormed(a + b)
  {
    FirstInPrefix(a + b, a, '<');
    FirstInPrefix(a + b, a, '>');
    assert (a + b)[gt + 1..] == a[gt + 1..] + b;
    WellFormedStep(a + b, lt, gt);
  }

  ghost predicate Outside(p: Progress) {
    Builds(p) && WellFormed(p.text) && EndsOutside(p.target)
  }

  lemma {:induction false} FrameStaysOutside(p: Progress, c: Config, chunk: nat)
    requires ValidConfig(c) && Plain(c.pause) && c.checkHtml && 0 < chunk <= c.maxCharacters && Outside(p)
    ensures var r := TypeFrame(p, c, chunk);
      && r.Some? && Outside(r.value) && r.value.text == p.text
      && (p.typed < |p.text| && p.text[|p.text| - 1] != '>' ==> p.typed < r.value.typed)
  {
    RestIsWellFormed(p.text, p.target);
    var remaining := p.text[p.typed..];
    CharactersEndOutside(remaining, c, chunk);
    FrameBuilds(p, c, chunk);
    JoinEndsOutside(p.target, Characters(remaining, c, chunk).value);
    LastOfRest(p.text, p.typed);
  }

  lemma {:induction false} LastOfRest(s: string, n: nat)
    requires n <= |s|
    ensures n < |s| ==> s[n..] != "" && s[n..][|s[n..]| - 1] == s[|s| - 1]
  {
  }

  lemma {:induction false} JoinEndsOutside(a: string, b: string)
    requires EndsOutside(a) && EndsOutside(b)
    ensures EndsOutside(a + b)
  {
    JoinIsWellFormed(a, b);
    assert b != "" ==> (a + b)[|a + b| - 1] == b[|b| - 1];
    assert b == "" ==> a + b == a;
  }

  /** On well-formed text no frame hangs, and none leaves the target inside a tag. */
  lemma {:induction false} TypingStaysOutside(p: Progress, c: Config, chunks: seq<nat>)
    requires ValidConfig(c) && Plain(c.pause) && c.checkHtml && Outside(p)
    requires forall k :: 0 <= k < |chunks| ==> 0 < chunks[k] <= c.maxCharacters
    ensures var r := TypeFrames(p, c, chunks);
      && r.Some? && Outside(r.value) && r.value.text == p.text
      && (p.text != "" && p.text[|p.text| - 1] != '>' ==>
            r.value.typed == |p.text| || p.typed + |chunks| <= r.value.typed)
  {
    if chunks != [] {
      var n := |chunks| - 1;
      TypingStaysOutside(p, c, chunks[..n]);
      FrameStaysOutside(TypeFrames(p, c, chunks[..n]).value, c, chunks[n]);
    }
  }

  /** Typing a well-formed text from its beginning finishes, whatever is drawn, within as many frames as it has
      characters, exactly when the text does not end in a tag; otherwise it never does. */
  lemma {:induction false} TypingFinishes(text: string, c: Config, chunks: seq<nat>)
    requires ValidConfig(c) && Plain(c.pause) && c.checkHtml && WellFormed(text) && |text| <= |chunks|
    requires forall k :: 0 <= k < |chunks| ==> 0 < chunks[k] <= c.maxCharacters
    ensures var r := TypeFrames(Progress("", text, 0), c, chunks);
      r.Some? && (r.value.typed == |text| <==> text == "" || text[|text| - 1] != '>')
  {
    var start := Progress("", text, 0);
    PlainEndsOutside("");
    TypingStaysOutside(start, c, chunks);
    WholeText(TypeFrames(start, c, chunks).value);
  }

  /** The whole text can only have been typed if it does not end in a tag. */
  lemma {:induction false} WholeText(p: Progress)
    requires Outside(p)
    ensures p.typed == |p.text| && p.text != "" ==> p.text[|p.text| - 1] != '>'
  {
    hide WellFormed;
    assert p.typed == |p.text| ==> p.target == p.text;
  }

  // ---------------------------------------------------------------- the animation

  /** One draw of random numbers: how many characters, and how many frames until the next ones. */
  datatype Draw = Draw(chunk: nat, delay: nat)

  function Chunks(draws: seq<Draw>): (chunks: seq<nat>)
    ensures |chunks| == |draws|
  {
    seq(|draws|, k requires 0 <= k < |draws| => draws[k].chunk)
  }

  /** How long to wait after these characters; longer after the end of a sentence. */
  function Delay(characters: string, c: Config, draw: Draw): nat {
    if |characters| >= |c.pause| && characters[|characters| - |c.pause|..] == c.pause then draw.delay * c.pauseFactor
    else draw.delay
  }

  /** The frames still to wait once these draws were typed: each frame that types takes one off, and adds the delay
      after its characters. */
  function WaitAfter(start: Progress, c: Config, draws: seq<Draw>, wait: int): int
    requires ValidConfig(c)
  {
    if draws == [] then wait
    else
      var n := |draws| - 1;
      var before, after := TypeFrames(start, c, Chunks(draws[..n])), TypeFrames(start, c, Chunks(draws));
      WaitAfter(start, c, draws[..n], wait) - 1 +
        if before.Some? && after.Some? && before.value.typed <= after.value.typed <= |after.value.text| then
          Delay(after.value.text[before.value.typed..after.value.typed], c, draws[n])
        else 0
  }

  // ---------------------------------------------------------------- sentences

  /** A pause begins here. */
  predicate PauseAt(s: string, pause: string, k: nat) {
    k + |pause| <= |s| && s[k..k + |pause|] == pause
  }

  lemma {:induction false} PauseOccurs(s: string, pause: string, k: nat)
    ensures PauseAt(s, pause, k) <==> OccursAt(s, pause, k)
  {
    if PauseAt(s, pause, k) {
      forall j | 0 <= j < |pause| ensures s[k + j] == pause[j] {
        assert s[k + j] == s[k..k + |pause|][j];
      }
    }
    if OccursAt(s, pause, k) {
      assert s[k..k + |pause|] == pause;
    }
  }

  /** The first pause of a text begins here. */
  ghost predicate FirstPause(s: string, pause: string, n: nat) {
    PauseAt(s, pause, n) && forall k :: 0 <= k < n ==> !PauseAt(s, pause, k)
  }

  lemma {:induction false} FirstPauseFound(s: string, p: string, window: nat, n: nat)
    requires FirstPause(s, p, n) && n + |p| <= window
    ensures Find(s, p, 0) == n && Find(Take(s, window), p, 0) == n
  {
    forall k | 0 <= k <= n
      ensures PauseAt(s, p, k) <==> OccursAt(s, p, k)
      ensures OccursAt(Take(s, window), p, k) <==> OccursAt(s, p, k)
    {
      PauseOccurs(s, p, k);
      OccursInWindow(s, p, window, k);
      OccursInWindow(s, p, window, n);
    }
    FindIs(s, p, n);
    FindIs(Take(s, window), p, n);
  }

  /** If a sentence ends within the next characters, and no tag is among them, a frame types up to the end of the
      sentence, whatever is drawn, and the wait after it is longer by the factor. */
  lemma {:induction false} SentenceIsTyped(remaining: string, c: Config, draw: Draw, n: nat)
    requires ValidConfig(c) && (c.checkHtml ==> !TagAhead(remaining, c.maxCharacters))
    requires FirstPause(remaining, c.pause, n) && n < c.maxCharacters
    ensures Characters(remaining, c, draw.chunk) == Some(remaining[..n + |c.pause|])
    ensures Delay(remaining[..n + |c.pause|], c, draw) == draw.delay * c.pauseFactor
  {
    hide Find;
    FirstPauseFound(remaining, c.pause, c.maxCharacters + |c.pause| - 1, n);
    DelayAfter(remaining, n, c, draw);
  }

  lemma {:induction false} DelayAfter(s: string, n: nat, c: Config, draw: Draw)
    requires PauseAt(s, c.pause, n)
    ensures Delay(s[..n + |c.pause|], c, draw) == draw.delay * c.pauseFactor
  {
    var typed := s[..n + |c.pause|];
    assert typed[|typed| - |c.pause|..] == s[n..n + |c.pause|];
  }

  /** If no sentence ends there, a frame types as many characters as were drawn, or all there are, and waits as long
      as was drawn. */
  lemma {:induction false} ChunkIsTyped(remaining: string, c: Config, draw: Draw)
    requires ValidConfig(c) && (c.checkHtml ==> !TagAhead(remaining, c.maxCharacters)) && draw.chunk <= c.maxCharacters
    requires forall k :: 0 <= k < c.maxCharacters ==> !PauseAt(remaining, c.pause, k)
    ensures var typed := remaining[..if draw.chunk <= |remaining| then draw.chunk else |remaining|];
      Characters(remaining, c, draw.chunk) == Some(typed) && Delay(typed, c, draw) == draw.delay
  {
    hide Find;
    var n := if draw.chunk <= |remaining| then draw.chunk else |remaining|;
    NoPauseFound(remaining, c.pause, c.maxCharacters);
    assert Take(remaining, draw.chunk) == remaining[..n];
    DelayWithout(remaining, n, c, draw);
  }

  lemma {:induction false} DelayWithout(s: string, n: nat, c: Config, draw: Draw)
    requires n <= |s| && n <= c.maxCharacters && ValidConfig(c)
    requires forall k :: 0 <= k < c.maxCharacters ==> !PauseAt(s, c.pause, k)
    ensures Delay(s[..n], c, draw) == draw.delay
  {
    if n >= |c.pause| {
      var k := n - |c.pause|;
      assert s[..n][k..] == s[k..k + |c.pause|];
      assert !PauseAt(s, c.pause, k);
    }
  }

  lemma {:induction false} NoPauseFound(s: string, p: string, max: nat)
    requires max > 0 && p != "" && forall k :: 0 <= k < max ==> !PauseAt(s, p, k)
    ensures Find(Take(s, max + |p| - 1), p, 0) < 0
  {
    var window := max + |p| - 1;
    var found := Find(Take(s, window), p, 0);
    FindIsFirst(Take(s, window), p, 0);
    if found >= 0 {
      OccursInWindow(s, p, window, found);
      PauseOccurs(s, p, found);
    }
  }

  class TypingAnimation {
    var target: string
    var text: string
    var enabled: bool
    var config: Config
    var charactersTyped: nat
    var framesToWait: int

    ghost predicate Valid()
      reads this
    {
      ValidConfig(config) && Builds(State())
    }

    ghost function State(): Progress
      reads this
    {
      Progress(target, text, charactersTyped)
    }

    constructor (config: Config)
      requires ValidConfig(config)
      ensures Valid() && State() == Progress("", "", 0) && this.config == config && enabled
    {
      target, text, charactersTyped, framesToWait := "", "", 0, 0;
      enabled, this.config := true, config;
    }

    /** Starts over with a new text, or with the old one if the new one is empty. */
    method Start(newText: string, wait: nat)
      requires Valid()
      modifies this`target, this`text, this`charactersTyped, this`framesToWait
      ensures Valid() && text == if newText != "" then newText else old(text)
      ensures charactersTyped == if enabled then 0 else |text|
      ensures framesToWait == if enabled && text != "" then wait else 0
    {
      if newText != "" {
        text := newText;
      }
      if !enabled {
        Complete();
        return;
      }
      target, charactersTyped := "", 0;
      framesToWait := if text != "" then wait else 0;
    }

    method Complete()
      requires ValidConfig(config)
      modifies this`target, this`charactersTyped, this`framesToWait
      ensures Valid() && charactersTyped == |text| && framesToWait == 0
    {
      target, charactersTyped, framesToWait := text, |text|, 0;
    }

    /** Types once the wait is over, and again while dropped frames leave nothing to wait for and draws remain.
        `used` counts the draws used; `hung` stands for never returning. When the draws run out the last frame is
        counted, but not typed. */
    method OnFrameInterval(draws: seq<Draw>) returns (used: nat, hung: bool)
      requires Valid()
      modifies this`target, this`charactersTyped, this`framesToWait
      ensures used <= |draws| && Valid()
      ensures TypeFrames(old(State()), config, Chunks(draws[..used])) == Some(State())
      ensures hung ==> used < |draws| && TypeFrame(State(), config, draws[used].chunk).None?
      ensures !hung ==> framesToWait >= 1 || used == |draws|
      ensures !hung && used == 0 && draws != [] ==> framesToWait == old(framesToWait) - 1 > 0
      ensures used > 0 ==> old(framesToWait) <= 1
      ensures forall k :: 0 < k < used ==> WaitAfter(old(State()), config, draws[..k], old(framesToWait)) < 1
      ensures var wait := WaitAfter(old(State()), config, draws[..used], old(framesToWait));
        !hung ==> framesToWait == if used > 0 && wait >= 1 then wait else wait - 1
    {
      hide TypeFrames, TypeFrame, WaitAfter, Delay, ValidConfig;
      used, hung := 0, false;
      ghost var start := State();
      NothingTyped(start, config, draws, framesToWait);
      framesToWait := framesToWait - 1;
      while framesToWait <= 0 && used < |draws|
        invariant used <= |draws| && Valid()
        invariant used > 0 ==> old(framesToWait) <= 1
        invariant framesToWait == WaitAfter(start, config, draws[..used], old(framesToWait)) - 1
        invariant forall k :: 0 < k <= used ==> WaitAfter(start, config, draws[..k], old(framesToWait)) < 1
        invariant TypeFrames(start, config, Chunks(draws[..used])) == Some(State())
        decreases |draws| - used
      {
        OneMoreDraw(start, State(), config, draws, used);
        ghost var before := State();
        hung := TypeOnce(draws[used]);
        if hung {
          return;
        }
        OneMoreWait(start, before, State(), config, draws, used, old(framesToWait));
        used := used + 1;
        if framesToWait >= 1 {
          return;
        }
        // Calling itself, the handler counts another frame.
        framesToWait := framesToWait - 1;
      }
    }

    method TypeOnce(draw: Draw) returns (hung: bool)
      requires Valid()
      modifies this`target, this`charactersTyped, this`framesToWait
      ensures Valid()
      ensures hung <==> TypeFrame(old(State()), config, draw.chunk).None?
      ensures old(charactersTyped) <= charactersTyped
      ensures State() == if hung then old(State()) else TypeFrame(old(State()), config, draw.chunk).value
      ensures framesToWait == if hung then old(framesToWait)
                              else old(framesToWait) + Delay(text[old(charactersTyped)..charactersTyped], config, draw)
    {
      var remaining := text[charactersTyped..];
      var tags;
      tags, remaining, hung := ExtractTags(remaining);
      if hung {
        return;
      }
      var characters := Choose(remaining, config, draw.chunk);
      characters := ReinsertTags(characters, tags);
      FrameBuilds(State(), config, draw.chunk);
      CharactersArePrefix(text[charactersTyped..], config, draw.chunk);
      assert characters == text[charactersTyped..charactersTyped + |characters|];
      target := target + characters;
      charactersTyped := charactersTyped + |characters|;
      framesToWait := framesToWait + Delay(characters, config, draw);
    }

    /** `hung` stands for never returning: a bracket that is never closed, or closed too early, takes nothing out. */
    method ExtractTags(s: string) returns (tags: seq<Tag>, rest: string, hung: bool)
      requires ValidConfig(config)
      ensures var e := if config.checkHtml then Extract(s, config.maxCharacters) else Some(Extraction([], s));
        && (hung <==> e.None?)
        && (!hung ==> e.value == Extraction(tags, rest))
    {
      if config.checkHtml {
        tags, rest, hung := TakeTagsOut(s, config.maxCharacters);
      } else {
        tags, rest, hung := [], s, false;
      }
    }

    method TakeTagsOut(s: string, window: nat) returns (tags: seq<Tag>, rest: string, hung: bool)
      ensures hung <==> Extract(s, window).None?
      ensures !hung ==> Extract(s, window) == Some(Extraction(tags, rest))
    {
      tags, rest, hung := [], s, false;
      ghost var goal, left := Extract(s, window), Extract(s, window);
      PrependNothing(goal);
      while TagAhead(rest, window)
        invariant left == Extract(rest, window) && goal == Prepend(tags, left)
        decreases |rest|
      {
        BracketPositions(rest, window);
        var lt, gt := IndexOf(rest, '<'), IndexOf(rest, '>');
        if gt < lt {
          ExtractStuck(rest, window);
          return tags, rest, true;
        }
        ExtractRound(rest, window, lt, gt);
        ghost var after := Extract(Without(rest, lt, gt), window);
        var tag := Tag(lt, rest[lt..gt + 1]);
        PrependTwice(tags, tag, after);
        tags := tags + [tag];
        rest := Without(rest, lt, gt);
        left := after;
      }
      assert tags + [] == tags;
    }

    method ReinsertTags(s: string, tags: seq<Tag>) returns (r: string)
      ensures r == Reinsert(s, tags)
    {
      r := s;
      var left := tags;
      while left != []
        invariant Reinsert(r, left) == Reinsert(s, tags)
      {
        ReinsertLast(r, left);
        r := Insert(r, left[|left| - 1]);
        left := left[..|left| - 1];
      }
    }
  }

  lemma {:induction false} OneMoreDraw(start: Progress, p: Progress, c: Config, draws: seq<Draw>, used: nat)
    requires ValidConfig(c) && Builds(p) && used < |draws| && TypeFrames(start, c, Chunks(draws[..used])) == Some(p)
    ensures TypeFrames(start, c, Chunks(draws[..used + 1])) == TypeFrame(p, c, draws[used].chunk)
  {
    var chunks := Chunks(draws[..used + 1]);
    assert chunks[..used] == Chunks(draws[..used]);
  }

  lemma {:induction false} NothingTyped(start: Progress, c: Config, draws: seq<Draw>, wait: int)
    requires ValidConfig(c)
    ensures TypeFrames(start, c, Chunks(draws[..0])) == Some(start) && WaitAfter(start, c, draws[..0], wait) == wait
  {
  }

  lemma {:induction false} OneMoreWait(start: Progress, p: Progress, r: Progress, c: Config, draws: seq<Draw>,
          used: nat, wait: int)
    requires ValidConfig(c) && Builds(p) && Builds(r) && used < |draws| && p.typed <= r.typed
    requires TypeFrames(start, c, Chunks(draws[..used])) == Some(p)
    requires TypeFrames(start, c, Chunks(draws[..used + 1])) == Some(r)
    ensures WaitAfter(start, c, draws[..used + 1], wait) ==
      WaitAfter(start, c, draws[..used], wait) - 1 + Delay(r.text[p.typed..r.typed], c, draws[used])
  {
    assert draws[..used + 1][..used] == draws[..used];
  }

  function Prepend(tags: seq<Tag>, e: Option<Extraction>): Option<Extraction> {
    if e.None? then None else Some(Extraction(tags + e.value.tags, e.value.rest))
  }

  lemma {:induction false} PrependTwice(tags: seq<Tag>, tag: Tag, e: Option<Extraction>)
    ensures Prepend(tags, Prepend([tag], e)) == Prepend(tags + [tag], e)
  {
    if e.Some? {
      assert tags + ([tag] + e.value.tags) == (tags + [tag]) + e.value.tags;
    }
  }

  /** What the extraction does next: it never ends, or it takes one tag out. */
  lemma {:induction false} ExtractStuck(s: string, window: nat)
    requires TagAhead(s, window) && IndexOf(s, '>') < IndexOf(s, '<')
    ensures Extract(s, window) == None
  {
  }

  lemma {:induction false} ExtractRound(s: string, window: nat, lt: nat, gt: nat)
    requires TagAhead(s, window) && lt < gt < |s| && IndexOf(s, '<') == lt && IndexOf(s, '>') == gt
    ensures Extract(s, window) == Prepend([Tag(lt, s[lt..gt + 1])], Extract(Without(s, lt, gt), window))
  {
  }

  lemma {:induction false} PrependNothing(e: Option<Extraction>)
    ensures Prepend([], e) == e
  {
    if e.Some? {
      assert [] + e.value.tags == e.value.tags;
    }
  }

  lemma {:induction false} ReinsertLast(s: string, tags: seq<Tag>)
    requires tags != []
    ensures Reinsert(s, tags) == Reinsert(Insert(s, tags[|tags| - 1]), tags[..|tags| - 1])
  {
    var n := |tags| - 1;
    if n > 0 {
      ReinsertLast(s, tags[1..]);
      assert tags[1..][..n - 1] == tags[..n][1..];
    } else {
      assert tags[1..] == [] && tags[..0] == [];
    }
  }
}
