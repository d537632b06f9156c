/**
  Reading a counter out of a cgroup events file: find the key at the start of a word, skip
  spaces, and see whether the number starts with a nonzero digit. The file is read in chunks.
 */
module Counters {
  import opened Options
  import opened Utf8

  const SPACE: byte := 0x20
  const NEWLINE: byte := 0x0A

  predicate IsSeparator(b: byte) { b == SPACE || b == NEWLINE }

  predicate IsNonzeroDigit(b: byte) { 0x31 <= b <= 0x39 }

  /** A key is a word and the space behind it. */
  predicate IsKey(key: seq<byte>) {
    && |key| > 1 && key[|key| - 1] == SPACE
    && forall i :: 0 <= i < |key| - 1 ==> !IsSeparator(key[i]) && key[i] != 0
  }

  // ----- what is looked for -----

  predicate IsWordStart(text: seq<byte>, w: nat) {
    w <= |text| && (w == 0 || IsSeparator(text[w - 1]))
  }

  /** The key stands at the start of a word. */
  predicate IsEntry(text: seq<byte>, key: seq<byte>, w: nat) {
    IsWordStart(text, w) && w + |key| <= |text| && text[w..w + |key|] == key
  }

  /** Behind `p` and any spaces the text goes on with a nonzero digit. */
  predicate IsNonzeroAt(text: seq<byte>, p: nat)
    requires p <= |text|
    decreases |text| - p
  {
    p < |text| && if text[p] == SPACE then IsNonzeroAt(text, p + 1) else IsNonzeroDigit(text[p])
  }

  /** The first entry for the key has a number that starts with a nonzero digit. */
  ghost predicate IsNonzero(text: seq<byte>, key: seq<byte>) {
    exists w: nat :: IsEntry(text, key, w) && (forall u: nat :: u < w ==> !IsEntry(text, key, u))
                     && IsNonzeroAt(text, w + |key|)
  }

  // ----- the machine, character by character -----

  /** Inside a word that does not match, or `n` characters into the key. */
  datatype Place = Skipping | Matching(n: nat)

  predicate IsPlace(s: Place, key: seq<byte>) { s.Matching? ==> s.n <= |key| }

  /** From a place to the next, or to the answer. */
  datatype Move = To(place: Place) | Answer(nonzero: bool)

  function Skip(c: byte): Place {
    if IsSeparator(c) then Matching(0) else Skipping
  }

  function Advance(key: seq<byte>, s: Place, c: byte): (r: Move)
    requires IsPlace(s, key)
    ensures r.To? ==> IsPlace(r.place, key)
  {
    if s.Skipping? then To(Skip(c))
    else if s.n == |key| then if c == SPACE then To(s) else Answer(IsNonzeroDigit(c))
    else if c == key[s.n] then To(Matching(s.n + 1))
    else To(Skip(c))
  }

  /** The answer of the machine that goes on from `s` over `text`. */
  predicate Match(key: seq<byte>, s: Place, text: seq<byte>)
    requires IsPlace(s, key)
    decreases |text|
  {
    text != [] &&
    var r := Advance(key, s, text[0]);
    if r.Answer? then r.nonzero else Match(key, r.place, text[1..])
  }

  /** Where the machine is after `text`, unless it has answered. */
  function Reach(key: seq<byte>, s: Place, text: seq<byte>): (r: Move)
    requires IsPlace(s, key)
    ensures r.To? ==> IsPlace(r.place, key)
    decreases |text|
  {
    if text == [] then To(s)
    else
      var r := Advance(key, s, text[0]);
      if r.Answer? then r else Reach(key, r.place, text[1..])
  }

  lemma {:induction false} MatchGoesOn(key: seq<byte>, s: Place, a: seq<byte>, b: seq<byte>)
    requires IsPlace(s, key)
    ensures var r := Reach(key, s, a);
            Match(key, s, a + b) == if r.Answer? then r.nonzero else Match(key, r.place, b)
    decreases |a|
  {
    if a == [] {
      assert a + b == b;
    } else {
      var r := Advance(key, s, a[0]);
      assert (a + b)[1..] == a[1..] + b;
      if r.To? {
        MatchGoesOn(key, r.place, a[1..], b);
      }
    }
  }

  // ----- it finds the first entry -----

  /** The machine has read `text[..p]` without meeting an entry it has left behind. */
  predicate IsAt(text: seq<byte>, key: seq<byte>, p: nat, s: Place) {
    && p <= |text| && IsPlace(s, key)
    && if s.Skipping? then p > 0 && !IsSeparator(text[p - 1])
       else
         var w := p - s.n;
         w >= 0 && IsWordStart(text, w) && text[w..p] == key[..s.n]
  }

  /** No entry starts before the word the machine is in. */
  ghost predicate NoneBefore(text: seq<byte>, key: seq<byte>, p: nat, s: Place) {
    forall u: nat :: IsEntry(text, key, u) ==> if s.Skipping? then u >= p else u + s.n >= p
  }

  lemma {:induction false} MatchedAnswers(text: seq<byte>, key: seq<byte>, p: nat)
    requires p <= |text|
    ensures Match(key, Matching(|key|), text[p..]) == IsNonzeroAt(text, p)
    decreases |text| - p
  {
    if p < |text| {
      assert text[p..][1..] == text[p + 1..];
      MatchedAnswers(text, key, p + 1);
    }
  }

  /** An entry that does not start before `p` starts behind it, if no word starts there. */
  lemma MovesPast(text: seq<byte>, key: seq<byte>, p: nat, s: Place)
    requires IsKey(key) && IsAt(text, key, p, s) && NoneBefore(text, key, p, s) && p < |text|
    requires s.Matching? ==> s.n < |key| && text[p] != key[s.n]
    ensures IsAt(text, key, p + 1, Skip(text[p])) && NoneBefore(text, key, p + 1, Skip(text[p]))
  {
    if s.Matching? {
      var w := p - s.n;
      assert forall i :: w <= i < p ==> text[i] == text[w..p][i - w] == key[i - w];
      EntryShows(text, key, w, s.n);
    }
  }

  lemma EntryShows(text: seq<byte>, key: seq<byte>, w: nat, i: nat)
    requires i < |key|
    ensures IsEntry(text, key, w) ==> text[w + i] == key[i]
  {
    if IsEntry(text, key, w) {
      assert text[w + i] == text[w..w + |key|][i];
    }
  }

  lemma LastEntry(text: seq<byte>, key: seq<byte>, w: nat)
    requires IsEntry(text, key, w) && forall u: nat :: IsEntry(text, key, u) ==> u >= w
    ensures IsNonzero(text, key) == IsNonzeroAt(text, w + |key|)
  {
  }

  /** The machine finds the first entry. */
  lemma {:induction false} MatchFinds(text: seq<byte>, key: seq<byte>, p: nat, s: Place)
    requires IsKey(key) && IsAt(text, key, p, s) && NoneBefore(text, key, p, s) && (s.Matching? ==> s.n < |key|)
    ensures Match(key, s, text[p..]) == IsNonzero(text, key)
    decreases |text| - p
  {
    if p < |text| {
      hide IsNonzero, NoneBefore, IsEntry, IsAt, IsKey;
      var c := text[p];
      assert text[p..][0] == c && text[p..][1..] == text[p + 1..];
      if s.Matching? && c == key[s.n] {
        StepsOn(text, key, p, s);
        if s.n + 1 == |key| {
          FirstEntry(text, key, p + 1);
          MatchedAnswers(text, key, p + 1);
        } else {
          MatchFinds(text, key, p + 1, Matching(s.n + 1));
        }
      } else {
        MovesPast(text, key, p, s);
        MatchFinds(text, key, p + 1, Skip(c));
      }
    }
  }

  lemma StepsOn(text: seq<byte>, key: seq<byte>, p: nat, s: Place)
    requires p < |text| && s.Matching? && s.n < |key| && text[p] == key[s.n]
    requires IsAt(text, key, p, s) && NoneBefore(text, key, p, s)
    ensures IsAt(text, key, p + 1, Matching(s.n + 1)) && NoneBefore(text, key, p + 1, Matching(s.n + 1))
  {
    var w: nat := p - s.n;
    assert text[w..p + 1] == text[w..p] + [text[p]];
    assert key[..s.n + 1] == key[..s.n] + [key[s.n]];
  }

  lemma FirstEntry(text: seq<byte>, key: seq<byte>, p: nat)
    requires IsAt(text, key, p, Matching(|key|)) && NoneBefore(text, key, p, Matching(|key|))
    ensures IsNonzero(text, key) == IsNonzeroAt(text, p)
  {
    assert key[..|key|] == key;
    LastEntry(text, key, p - |key|);
  }

  /** On an unsplit file the machine answers whether the counter is nonzero. */
  lemma MatchIsNonzero(text: seq<byte>, key: seq<byte>)
    requires IsKey(key)
    ensures Match(key, Matching(0), text) == IsNonzero(text, key)
  {
    assert text[0..] == text && key[..0] == [] == text[0..0];
    MatchFinds(text, key, 0, Matching(0));
  }

  // ----- chunks -----

  /** Entering a chunk, a key that has just been matched is taken for one that still has a
      character to come, its terminator. */
  function Enter(key: seq<byte>, s: Place, c: byte): (r: Move)
    requires IsPlace(s, key) && c != 0
    ensures r.To? ==> IsPlace(r.place, key)
  {
    if s == Matching(|key|) then To(Skip(c)) else Advance(key, s, c)
  }

  predicate IsChunk(chunk: seq<byte>) { chunk != [] && forall i :: 0 <= i < |chunk| ==> chunk[i] != 0 }

  predicate AreChunks(chunks: seq<seq<byte>>) { forall i :: 0 <= i < |chunks| ==> IsChunk(chunks[i]) }

  function ChunkReach(key: seq<byte>, s: Place, chunk: seq<byte>): (r: Move)
    requires IsPlace(s, key) && IsChunk(chunk)
    ensures r.To? ==> IsPlace(r.place, key)
  {
    var r := Enter(key, s, chunk[0]);
    if r.Answer? then r else Reach(key, r.place, chunk[1..])
  }

  predicate ChunkedMatch(key: seq<byte>, s: Place, chunks: seq<seq<byte>>)
    requires IsPlace(s, key) && AreChunks(chunks)
    decreases |chunks|
  {
    chunks != [] &&
    var r := ChunkReach(key, s, chunks[0]);
    if r.Answer? then r.nonzero else ChunkedMatch(key, r.place, chunks[1..])
  }

  function Joined(chunks: seq<seq<byte>>): seq<byte> {
    if chunks == [] then [] else chunks[0] + Joined(chunks[1..])
  }

  /** No chunk but the last ends when the key has been matched and the number has not begun. */
  predicate SplitsWell(key: seq<byte>, s: Place, chunks: seq<seq<byte>>)
    requires IsPlace(s, key)
    decreases |chunks|
  {
    chunks == [] ||
    (s != Matching(|key|) &&
     var r := Reach(key, s, chunks[0]);
     (r.Answer? || SplitsWell(key, r.place, chunks[1..])))
  }

  /** If the chunks split well the machine answers as on the unsplit file. */
  lemma {:induction false} ChunksMatch(key: seq<byte>, s: Place, chunks: seq<seq<byte>>)
    requires IsPlace(s, key) && AreChunks(chunks) && SplitsWell(key, s, chunks)
    ensures ChunkedMatch(key, s, chunks) == Match(key, s, Joined(chunks))
    decreases |chunks|
  {
    if chunks != [] {
      var r := Reach(key, s, chunks[0]);
      assert ChunkReach(key, s, chunks[0]) == r;
      MatchGoesOn(key, s, chunks[0], Joined(chunks[1..]));
      if r.To? {
        ChunksMatch(key, r.place, chunks[1..]);
      }
    }
  }

  /** The counter is read right from every file in every split that splits well. */
  lemma CounterIsRead(key: seq<byte>, chunks: seq<seq<byte>>)
    requires IsKey(key) && AreChunks(chunks) && SplitsWell(key, Matching(0), chunks)
    ensures ChunkedMatch(key, Matching(0), chunks) == IsNonzero(Joined(chunks), key)
  {
    ChunksMatch(key, Matching(0), chunks);
    MatchIsNonzero(Joined(chunks), key);
  }

  /** A chunk that begins right behind a matched key makes the machine forget the match: it takes
      the number for the rest of another word and looks for the next entry. */
  lemma BoundaryForgets(key: seq<byte>, chunks: seq<seq<byte>>)
    requires AreChunks(chunks)
    ensures ChunkedMatch(key, Matching(|key|), chunks) == ChunkedMatch(key, Skipping, chunks)
  {
    if chunks != [] {
      assert ChunkReach(key, Matching(|key|), chunks[0]) == ChunkReach(key, Skipping, chunks[0]);
    }
  }

  // ----- a bad split -----

  /** The file has at most one entry of the key. */
  ghost predicate HasOneEntry(text: seq<byte>, key: seq<byte>) {
    forall u: nat, w: nat :: IsEntry(text, key, u) && IsEntry(text, key, w) ==> u == w
  }

  /** Some entry that starts at `from` or behind it has been read at `p`. */
  ghost predicate HasEntry(text: seq<byte>, key: seq<byte>, from: nat, p: nat) {
    exists w: nat :: from <= w && w + |key| <= p && IsEntry(text, key, w)
  }

  /** What the machine's place at `p` says of what lies between `from` and `p`. */
  ghost predicate Fits(text: seq<byte>, key: seq<byte>, from: nat, p: nat, s: Place)
    requires IsPlace(s, key)
  {
    && p <= |text|
    && match s
       case Skipping => true
       case Matching(n) =>
         if n == |key| then HasEntry(text, key, from, p)
         else from <= p - n && IsWordStart(text, p - n) && text[p - n..p] == key[..n]
  }

  lemma AdvanceFits(text: seq<byte>, key: seq<byte>, from: nat, p: nat, s: Place)
    requires IsPlace(s, key) && |key| > 0 && p < |text| && from <= p && Fits(text, key, from, p, s)
    ensures var r := Advance(key, s, text[p]);
            if r.To? then Fits(text, key, from, p + 1, r.place) else HasEntry(text, key, from, p + 1)
  {
    hide IsEntry;
    if s.Matching? {
      if s.n == |key| {
        EntryStays(text, key, from, p);
      } else if text[p] == key[s.n] {
        var w: nat := p - s.n;
        assert text[w..p + 1] == text[w..p] + [text[p]];
        assert key[..s.n + 1] == key[..s.n] + [key[s.n]];
        if s.n + 1 == |key| {
          assert key[..|key|] == key;
          EntryIsRead(text, key, from, w);
        }
      }
    }
  }

  lemma EntryStays(text: seq<byte>, key: seq<byte>, from: nat, p: nat)
    requires HasEntry(text, key, from, p)
    ensures HasEntry(text, key, from, p + 1)
  {
  }

  lemma EntryIsRead(text: seq<byte>, key: seq<byte>, from: nat, w: nat)
    requires from <= w && IsWordStart(text, w) && w + |key| <= |text| && text[w..w + |key|] == key
    ensures HasEntry(text, key, from, w + |key|)
  {
    assert IsEntry(text, key, w);
  }

  /** It answers only when it has read an entry. */
  lemma {:induction false} ReachFits(text: seq<byte>, key: seq<byte>, from: nat, p: nat, q: nat, s: Place)
    requires IsPlace(s, key) && |key| > 0 && from <= p <= q <= |text| && Fits(text, key, from, p, s)
    ensures var r := Reach(key, s, text[p..q]);
            if r.To? then Fits(text, key, from, q, r.place) else HasEntry(text, key, from, |text|)
    decreases q - p
  {
    hide Fits, HasEntry;
    if p < q {
      assert text[p..q][1..] == text[p + 1..q];
      AdvanceFits(text, key, from, p, s);
      var r := Advance(key, s, text[p]);
      if r.To? {
        ReachFits(text, key, from, p + 1, q, r.place);
      } else {
        EntryIsInside(text, key, from, p + 1);
      }
    }
  }

  lemma EntryIsInside(text: seq<byte>, key: seq<byte>, from: nat, p: nat)
    requires p <= |text| && HasEntry(text, key, from, p)
    ensures HasEntry(text, key, from, |text|)
  {
  }

  lemma NextChunk(text: seq<byte>, p: nat, chunks: seq<seq<byte>>)
    requires p <= |text| && text[p..] == Joined(chunks) && chunks != []
    ensures var q := p + |chunks[0]|; q <= |text| && text[p..q] == chunks[0] && text[q..] == Joined(chunks[1..])
  {
    var q := p + |chunks[0]|;
    assert |text[p..]| == |chunks[0]| + |Joined(chunks[1..])|;
    assert text[p..q] == text[p..][..|chunks[0]|] && text[q..] == text[p..][|chunks[0]|..];
  }

  /** With no entry ahead it never answers. */
  lemma {:induction false} NothingAhead(text: seq<byte>, key: seq<byte>, from: nat, p: nat, s: Place,
                                        chunks: seq<seq<byte>>)
    requires IsPlace(s, key) && |key| > 0 && AreChunks(chunks) && from <= p && Fits(text, key, from, p, s)
    requires text[p..] == Joined(chunks) && !HasEntry(text, key, from, |text|)
    ensures !ChunkedMatch(key, s, chunks)
    decreases |chunks|
  {
    hide HasEntry, Joined;
    if chunks != [] {
      NextChunk(text, p, chunks);
      var q := p + |chunks[0]|;
      if s == Matching(|key|) {
        EntryIsInside(text, key, from, p);
      }
      ReachFits(text, key, from, p, q, s);
      assert ChunkReach(key, s, chunks[0]) == Reach(key, s, chunks[0]);
      NothingAhead(text, key, from, q, Reach(key, s, chunks[0]).place, chunks[1..]);
    }
  }

  /** A file with one entry that splits badly is taken to have none. */
  lemma {:induction false} BadSplitIsMissed(text: seq<byte>, key: seq<byte>, p: nat, s: Place, chunks: seq<seq<byte>>)
    requires IsPlace(s, key) && |key| > 0 && AreChunks(chunks) && Fits(text, key, 0, p, s) && HasOneEntry(text, key)
    requires text[p..] == Joined(chunks) && !SplitsWell(key, s, chunks)
    ensures !ChunkedMatch(key, s, chunks)
    decreases |chunks|
  {
    hide IsEntry, Joined;
    if s == Matching(|key|) {
      BoundaryForgets(key, chunks);
      NothingAhead(text, key, p, p, Skipping, chunks);
    } else {
      NextChunk(text, p, chunks);
      ReachFits(text, key, 0, p, p + |chunks[0]|, s);
      assert ChunkReach(key, s, chunks[0]) == Reach(key, s, chunks[0]);
      BadSplitIsMissed(text, key, p + |chunks[0]|, Reach(key, s, chunks[0]).place, chunks[1..]);
    }
  }

  /** A file with at most one entry of the key is read right from its chunks if and only if none
      ends between the key and its number, or the counter is zero anyway. */
  lemma SingleEntryIsReadIff(key: seq<byte>, chunks: seq<seq<byte>>)
    requires IsKey(key) && AreChunks(chunks) && HasOneEntry(Joined(chunks), key)
    ensures ChunkedMatch(key, Matching(0), chunks) == IsNonzero(Joined(chunks), key) <==>
            SplitsWell(key, Matching(0), chunks) || !IsNonzero(Joined(chunks), key)
  {
    hide IsNonzero, HasOneEntry, ChunkedMatch, SplitsWell;
    var text := Joined(chunks);
    if SplitsWell(key, Matching(0), chunks) {
      CounterIsRead(key, chunks);
    } else {
      assert text[0..] == text && text[0..0] == key[..0];
      BadSplitIsMissed(text, key, 0, Matching(0), chunks);
    }
  }

  // ----- any file in any split -----

  /** The chunks from the last one on that the machine entered right behind a matched key. */
  function Forgotten(key: seq<byte>, s: Place, chunks: seq<seq<byte>>): (r: Option<seq<seq<byte>>>)
    requires IsPlace(s, key) && AreChunks(chunks)
    ensures r.Some? ==> r.value != [] && AreChunks(r.value)
    decreases |chunks|, if s == Matching(|key|) then 1 else 0
  {
    if chunks == [] then None
    else if s == Matching(|key|) then
      var later := Forgotten(key, Skipping, chunks);
      if later.Some? then later else Some(chunks)
    else
      var r := Reach(key, s, chunks[0]);
      if r.Answer? then None else Forgotten(key, r.place, chunks[1..])
  }

  lemma {:induction false} ForgottenIsBad(key: seq<byte>, s: Place, chunks: seq<seq<byte>>)
    requires IsPlace(s, key) && AreChunks(chunks)
    ensures Forgotten(key, s, chunks).None? <==> SplitsWell(key, s, chunks)
    decreases |chunks|
  {
    if chunks != [] && s != Matching(|key|) {
      var r := Reach(key, s, chunks[0]);
      if r.To? {
        ForgottenIsBad(key, r.place, chunks[1..]);
      }
    }
  }

  /** What was read before the last such chunk is forgotten. */
  lemma {:induction false} ChunksForget(key: seq<byte>, s: Place, chunks: seq<seq<byte>>)
    requires IsPlace(s, key) && AreChunks(chunks)
    ensures var f := Forgotten(key, s, chunks);
            ChunkedMatch(key, s, chunks) ==
            if f.None? then Match(key, s, Joined(chunks)) else Match(key, Skipping, Joined(f.value))
    decreases |chunks|, if s == Matching(|key|) then 1 else 0
  {
    if chunks != [] {
      if s == Matching(|key|) {
        BoundaryForgets(key, chunks);
        ChunksForget(key, Skipping, chunks);
      } else {
        var r := Reach(key, s, chunks[0]);
        assert ChunkReach(key, s, chunks[0]) == r;
        MatchGoesOn(key, s, chunks[0], Joined(chunks[1..]));
        if r.To? {
          ChunksForget(key, r.place, chunks[1..]);
        }
      }
    }
  }

  /** From inside a word that does not match, the machine answers for what follows as it would for
      a file that begins with such a word. */
  lemma SkippingIsNonzero(text: seq<byte>, key: seq<byte>)
    requires IsKey(key)
    ensures Match(key, Skipping, text) == IsNonzero([0] + text, key)
  {
    var whole := [0] + text;
    assert whole[1..] == text;
    if IsEntry(whole, key, 0) {
      EntryShows(whole, key, 0, 0);
    }
    MatchFinds(whole, key, 1, Skipping);
  }

  /** What the machine answers on any file in any split: the counter of the whole file if no chunk
      ends between a matched key and its number, and otherwise that of what follows the last such
      end, where the word that stands there is passed over. */
  lemma ChunksAnswer(key: seq<byte>, chunks: seq<seq<byte>>)
    requires IsKey(key) && AreChunks(chunks)
    ensures var f := Forgotten(key, Matching(0), chunks);
            && (f.None? <==> SplitsWell(key, Matching(0), chunks))
            && ChunkedMatch(key, Matching(0), chunks) ==
               IsNonzero(if f.None? then Joined(chunks) else [0] + Joined(f.value), key)
  {
    hide IsNonzero, ChunkedMatch, SplitsWell, Match, Forgotten;
    ForgottenIsBad(key, Matching(0), chunks);
    ChunksForget(key, Matching(0), chunks);
    MatchIsNonzero(Joined(chunks), key);
    var f := Forgotten(key, Matching(0), chunks);
    if f.Some? {
      SkippingIsNonzero(Joined(f.value), key);
    }
  }

  /** A file is read right from its chunks if and only if they split well, or what follows the last
      bad end says the same as the whole. */
  lemma CounterIsReadIff(key: seq<byte>, chunks: seq<seq<byte>>)
    requires IsKey(key) && AreChunks(chunks)
    ensures var f := Forgotten(key, Matching(0), chunks);
            ChunkedMatch(key, Matching(0), chunks) == IsNonzero(Joined(chunks), key) <==>
            || SplitsWell(key, Matching(0), chunks)
            || (f.Some? && IsNonzero([0] + Joined(f.value), key) == IsNonzero(Joined(chunks), key))
  {
    hide IsNonzero, ChunkedMatch, SplitsWell, Forgotten;
    ChunksAnswer(key, chunks);
  }

  const MAX_KEY: seq<byte> := [0x6D, 0x61, 0x78, SPACE]

  /** A nonzero counter that is missed: the key is in one chunk, its number in the next. */
  lemma BoundaryMisses()
    ensures IsKey(MAX_KEY) && AreChunks([MAX_KEY, [0x31, NEWLINE]])
    ensures !ChunkedMatch(MAX_KEY, Matching(0), [MAX_KEY, [0x31, NEWLINE]])
    ensures IsNonzero(MAX_KEY + [0x31, NEWLINE], MAX_KEY)
  {
    var rest: seq<byte> := [0x31, NEWLINE];
    var k := MAX_KEY;
    var text := k + rest;
    var chunks := [k, rest];
    assert chunks[1..] == [rest] && [rest][1..] == [];
    MaxIsReached(k);
    assert Reach(k, Skipping, rest[1..]) == To(Matching(0)) by {
      assert rest[1..] == [NEWLINE] && [NEWLINE][1..] == [];
    }
    assert ChunkReach(k, Matching(4), rest) == To(Matching(0));
    assert !ChunkedMatch(k, Matching(0), []);
    assert !ChunkedMatch(k, Matching(4), [rest]);
    assert text[0..4] == k && text[4] == rest[0];
    assert IsEntry(text, k, 0) && IsNonzeroAt(text, 4);
  }

  lemma MaxIsReached(k: seq<byte>)
    requires k == MAX_KEY
    ensures Reach(k, Matching(0), k) == To(Matching(4)) && ChunkReach(k, Matching(0), k) == To(Matching(4))
  {
    assert k[1..] == [0x61, 0x78, SPACE] && k[1..][1..] == [0x78, SPACE];
    assert Reach(k, Matching(3), [SPACE]) == To(Matching(4)) by { assert [SPACE][1..] == []; }
    assert Reach(k, Matching(2), [0x78, SPACE]) == To(Matching(4)) by { assert [0x78, SPACE][1..] == [SPACE]; }
    assert Reach(k, Matching(1), k[1..]) == To(Matching(4));
  }

  // ----- the loop with its labels -----

  datatype Label = Compare | More | SkipMore

  function PlaceOf(state: int): Place
    requires state >= -1
  {
    if state == -1 then Skipping else Matching(state)
  }

  /** What the rest of a chunk leads to from a label. */
  function Leads(key: seq<byte>, l: Label, state: nat, buf: seq<byte>, i: nat): (r: Move)
    requires i < |buf| && IsChunk(buf) && state <= |key|
  {
    match l
    case Compare =>
      var r := Enter(key, Matching(state), buf[i]);
      if r.Answer? then r else Reach(key, r.place, buf[i + 1..])
    case More => Reach(key, Matching(state), buf[i + 1..])
    case SkipMore => Reach(key, Skip(buf[i]), buf[i + 1..])
  }

  /** Run over one chunk: either the answer or the state to go on with. */
  method ScanChunk(key: seq<byte>, buf: seq<byte>, start: int) returns (state: int, answer: Option<bool>)
    requires -1 <= start <= |key| && IsChunk(buf)
    ensures -1 <= state <= |key|
    ensures ChunkReach(key, PlaceOf(start), buf) == if answer.None? then To(PlaceOf(state)) else Answer(answer.value)
  {
    ghost var goal := ChunkReach(key, PlaceOf(start), buf);
    var i, l := 0, if start == -1 then SkipMore else Compare;
    state := if start == -1 then 0 else start;
    while true
      invariant i < |buf| && 0 <= state <= |key| && (l == Compare && i > 0 ==> state < |key|)
      invariant Leads(key, l, state, buf, i) == goal
      decreases |buf| - i, match l case Compare => 2 case SkipMore => 1 case More => 0
    {
      match l {
        case Compare =>
          if state < |key| && buf[i] == key[state] {
            state, l := state + 1, More;
          } else {
            l := SkipMore;
          }
        case More =>
          i := i + 1;
          if i == |buf| {
            return state, None;
          }
          assert buf[i..][1..] == buf[i + 1..];
          if state == |key| {
            if buf[i] != SPACE {
              return state, Some(IsNonzeroDigit(buf[i]));
            }
          } else {
            l := Compare;
          }
        case SkipMore =>
          if IsSeparator(buf[i]) {
            state, l := 0, More;
          } else {
            i := i + 1;
            if i == |buf| {
              return -1, None;
            }
            assert buf[i..][1..] == buf[i + 1..];
          }
      }
    }
  }

  /** Read the file chunk by chunk. */
  method CounterNonzero(key: seq<byte>, chunks: seq<seq<byte>>) returns (nonzero: bool)
    requires IsKey(key) && AreChunks(chunks)
    ensures nonzero == ChunkedMatch(key, Matching(0), chunks)
    ensures SplitsWell(key, Matching(0), chunks) ==> nonzero == IsNonzero(Joined(chunks), key)
  {
    if SplitsWell(key, Matching(0), chunks) {
      CounterIsRead(key, chunks);
    }
    hide ChunkReach, SplitsWell, IsNonzero;
    var state, k := 0, 0;
    while k < |chunks|
      invariant k <= |chunks| && -1 <= state <= |key|
      invariant ChunkedMatch(key, PlaceOf(state), chunks[k..]) == ChunkedMatch(key, Matching(0), chunks)
    {
      assert chunks[k..][1..] == chunks[k + 1..];
      var answer;
      state, answer := ScanChunk(key, chunks[k], state);
      if answer.Some? { return answer.value; }
      k := k + 1;
    }
    nonzero := false;
  }
}
