/** Logical text streams inside one event stream, each with a redactor of its own: whatever the interleaving,
    what a channel emits is what its redactor alone would emit on that channel's own pieces. */
module Channels {
  import opened Basics
  import opened Detectors
  import opened Redaction
  import opened Suppression
  import Ssn

  /** Key of the main response text. */
  const MAIN_TEXT := ""

  /** The event in which a piece of text arrived, so that a held tail can be sent in the same form. */
  datatype Shape = DefaultShape | Shape(event: Option<string>, payload: string, path: seq<string>)

  /** An emitted event: `text` in the place of the text it arrived with. */
  datatype Delta = Delta(key: string, shape: Shape, text: string)

  datatype Channel = Channel(state: State, shape: Option<Shape>)

  /** `keys` lists the channels other than the main one, in order of first use. */
  datatype Registry = Registry(main: Channel, keys: seq<string>, others: map<string, Channel>) {
    ghost predicate Valid() {
      && MAIN_TEXT !in keys && Distinct(keys)
      && forall key :: key in others <==> key in keys
    }

    function StateOf(key: string): Option<State> {
      if key == MAIN_TEXT then Some(main.state)
      else if key in others then Some(others[key].state)
      else None
    }

    /** The channel of a key, a new one if need be. */
    function Get(key: string): Channel {
      if key == MAIN_TEXT then main else if key in others then others[key] else Channel(INITIAL, None)
    }

    function Put(key: string, channel: Channel): Registry {
      if key == MAIN_TEXT then this.(main := channel)
      else Registry(main, if key in others then keys else keys + [key], others[key := channel])
    }
  }

  predicate Distinct(keys: seq<string>) {
    forall i, j | 0 <= i < j < |keys| :: keys[i] != keys[j]
  }

  lemma DistinctAppend(keys: seq<string>, key: string)
    requires Distinct(keys) && key !in keys
    ensures Distinct(keys + [key])
  {
  }

  /** The redactor given for the main channel may be configured differently from the others. */
  datatype Settings = Settings(main: Config, others: Config) {
    ghost predicate WellFormed() {
      main.WellFormed() && others.WellFormed()
    }

    function For(key: string): Config {
      if key == MAIN_TEXT then main else others
    }
  }

  // ---- Flush order ----------------------------------------------------------------------------

  predicate LexLeq(a: string, b: string) {
    |a| == 0 || (|b| > 0 && (a[0] < b[0] || (a[0] == b[0] && LexLeq(a[1..], b[1..]))))
  }

  function InsertKey(key: string, keys: seq<string>): seq<string> {
    if |keys| == 0 then [key]
    else if LexLeq(key, keys[0]) then [key] + keys
    else [keys[0]] + InsertKey(key, keys[1..])
  }

  function SortKeys(keys: seq<string>): seq<string> {
    if |keys| == 0 then [] else InsertKey(keys[0], SortKeys(keys[1..]))
  }

  predicate Ordered(keys: seq<string>) {
    forall i | 0 < i < |keys| :: LexLeq(keys[i - 1], keys[i])
  }

  lemma {:induction false} LexTotal(a: string, b: string)
    ensures LexLeq(a, b) || LexLeq(b, a)
    decreases |a|
  {
    if |a| > 0 && |b| > 0 && a[0] == b[0] {
      LexTotal(a[1..], b[1..]);
    }
  }

  lemma {:induction false} InsertKeyOrdered(key: string, keys: seq<string>)
    requires Ordered(keys)
    ensures Ordered(InsertKey(key, keys))
    ensures var r := InsertKey(key, keys); r[0] == key || (|keys| > 0 && r[0] == keys[0])
    decreases |keys|
  {
    if |keys| > 0 && !LexLeq(key, keys[0]) {
      LexTotal(key, keys[0]);
      var rest := keys[1..];
      assert forall i | 0 < i < |rest| :: LexLeq(rest[i - 1], rest[i]) by {
        assert forall i | 0 < i < |rest| :: rest[i - 1] == keys[i] && rest[i] == keys[i + 1];
      }
      InsertKeyOrdered(key, rest);
      var tail := InsertKey(key, rest);
      forall i | 0 < i < 1 + |tail|
        ensures LexLeq(([keys[0]] + tail)[i - 1], ([keys[0]] + tail)[i])
      {
        assert i > 1 ==> LexLeq(tail[i - 2], tail[i - 1]);
      }
    }
  }

  lemma {:induction false} InsertKeyKeys(key: string, keys: seq<string>)
    ensures forall k :: k in InsertKey(key, keys) <==> k == key || k in keys
    ensures Distinct(keys) && key !in keys ==> Distinct(InsertKey(key, keys))
    decreases |keys|
  {
    if |keys| > 0 && !LexLeq(key, keys[0]) {
      InsertKeyKeys(key, keys[1..]);
      var tail := InsertKey(key, keys[1..]);
      assert keys == [keys[0]] + keys[1..];
      if Distinct(keys) && key !in keys {
        assert keys[0] !in tail;
      }
    }
  }

  /** Flushing visits each of the other channels once, in the order of their keys. */
  lemma {:induction false} SortKeysSorts(keys: seq<string>)
    ensures Ordered(SortKeys(keys))
    ensures forall k :: k in SortKeys(keys) <==> k in keys
    ensures Distinct(keys) ==> Distinct(SortKeys(keys))
    decreases |keys|
  {
    if |keys| > 0 {
      SortKeysSorts(keys[1..]);
      InsertKeyOrdered(keys[0], SortKeys(keys[1..]));
      InsertKeyKeys(keys[0], SortKeys(keys[1..]));
      assert keys == [keys[0]] + keys[1..];
    }
  }

  // ---- The registry over a stream -------------------------------------------------------------

  /** One event of the stream: a delta with one recognised text leaf, or the end of a block or of the stream. */
  datatype Event = Text(key: string, shape: Shape, text: string) | FlushAll

  function OnText(cfg: Settings, reg: Registry, key: string, shape: Shape, text: string): (Registry, seq<Delta>)
    requires cfg.WellFormed()
  {
    var (st, safe) := Feed(cfg.For(key), reg.Get(key).state, text);
    (reg.Put(key, Channel(st, Some(shape))), if safe == "" then [] else [Delta(key, shape, safe)])
  }

  function FlushOne(cfg: Settings, reg: Registry, key: string): (Registry, seq<Delta>)
    requires cfg.WellFormed()
  {
    var channel := reg.Get(key);
    var (st, remaining) := Flush(cfg.For(key), channel.state);
    var shape := if channel.shape.Some? then channel.shape.value else DefaultShape;
    (reg.Put(key, channel.(state := st)), if remaining == "" then [] else [Delta(key, shape, remaining)])
  }

  function FlushKeys(cfg: Settings, reg: Registry, keys: seq<string>): (Registry, seq<Delta>)
    requires cfg.WellFormed()
    decreases |keys|
  {
    if |keys| == 0 then (reg, [])
    else
      var (flushed, first) := FlushOne(cfg, reg, keys[0]);
      var (all, rest) := FlushKeys(cfg, flushed, keys[1..]);
      (all, first + rest)
  }

  function Handle(cfg: Settings, reg: Registry, e: Event): (Registry, seq<Delta>)
    requires cfg.WellFormed()
  {
    match e
    case Text(key, shape, text) => OnText(cfg, reg, key, shape, text)
    case FlushAll => FlushKeys(cfg, reg, [MAIN_TEXT] + SortKeys(reg.keys))
  }

  function HandleAll(cfg: Settings, reg: Registry, events: seq<Event>): (Registry, seq<Delta>)
    requires cfg.WellFormed()
    decreases |events|
  {
    if |events| == 0 then (reg, [])
    else
      var (before, emitted) := HandleAll(cfg, reg, events[..|events| - 1]);
      var (after, last) := Handle(cfg, before, events[|events| - 1]);
      (after, emitted + last)
  }

  /** All text a list of emitted events carries for one channel. */
  function TextFor(deltas: seq<Delta>, key: string): string
    decreases |deltas|
  {
    if |deltas| == 0 then ""
    else (if deltas[0].key == key then deltas[0].text else "") + TextFor(deltas[1..], key)
  }

  // ---- A redactor on its own ------------------------------------------------------------------

  /** One event as a redactor sees it that is used for one channel only. There is none before the first piece. */
  function LoneStep(cfg: Config, key: string, st: Option<State>, e: Event): (Option<State>, string)
    requires cfg.WellFormed()
  {
    match e
    case Text(k, _, text) =>
      if k != key then (st, "")
      else
        var (after, safe) := Feed(cfg, if st.Some? then st.value else INITIAL, text);
        (Some(after), safe)
    case FlushAll =>
      if st.None? then (None, "")
      else
        var (after, remaining) := Flush(cfg, st.value);
        (Some(after), remaining)
  }

  function Lone(cfg: Config, key: string, st: Option<State>, events: seq<Event>): (Option<State>, string)
    requires cfg.WellFormed()
    decreases |events|
  {
    if |events| == 0 then (st, "")
    else
      var (before, emitted) := Lone(cfg, key, st, events[..|events| - 1]);
      var (after, last) := LoneStep(cfg, key, before, events[|events| - 1]);
      (after, emitted + last)
  }

  // ---- Isolation ------------------------------------------------------------------------------

  lemma {:induction false} TextForAppend(a: seq<Delta>, b: seq<Delta>, key: string)
    ensures TextFor(a + b, key) == TextFor(a, key) + TextFor(b, key)
    decreases |a|
  {
    if |a| == 0 {
      AppendNil(b);
      AppendNil(TextFor(b, key));
    } else {
      TextForAppend(a[1..], b, key);
      AppendUncons(a, b);
      Associative(if a[0].key == key then a[0].text else "", TextFor(a[1..], key), TextFor(b, key));
    }
  }

  /** At most one event, of the channel `from`. */
  lemma TextForOne(from: string, shape: Shape, text: string, key: string)
    ensures var deltas := if text == "" then [] else [Delta(from, shape, text)];
            TextFor(deltas, key) == if from == key then text else ""
  {
    if text != "" {
      var deltas := [Delta(from, shape, text)];
      assert |deltas[1..]| == 0;
      AppendNil(text);
    }
  }

  lemma PutIsValid(reg: Registry, key: string, channel: Channel)
    requires reg.Valid()
    ensures reg.Put(key, channel).Valid()
    ensures forall k :: reg.Put(key, channel).StateOf(k) == if k == key then Some(channel.state) else reg.StateOf(k)
  {
  }

  lemma PutNew(reg: Registry, key: string, channel: Channel)
    requires key != MAIN_TEXT && key !in reg.others
    ensures reg.Put(key, channel) == Registry(reg.main, reg.keys + [key], reg.others[key := channel])
  {
  }

  lemma PutTwice(reg: Registry, key: string, a: Channel, b: Channel)
    ensures reg.Put(key, a).Put(key, b) == reg.Put(key, b)
  {
    assert reg.others[key := a][key := b] == reg.others[key := b];
  }

  lemma FlushOneFor(cfg: Settings, reg: Registry, flushed: string, key: string)
    requires cfg.WellFormed() && reg.Valid() && reg.StateOf(flushed).Some?
    ensures var (after, deltas) := FlushOne(cfg, reg, flushed);
            && after.Valid() && after.keys == reg.keys
            && after.StateOf(key) == (if key == flushed then LoneStep(cfg.For(key), key, reg.StateOf(key), FlushAll).0
                                      else reg.StateOf(key))
            && TextFor(deltas, key) == (if key == flushed then LoneStep(cfg.For(key), key, reg.StateOf(key), FlushAll).1
                                        else "")
  {
    var channel := reg.Get(flushed);
    var (st, remaining) := Flush(cfg.For(flushed), channel.state);
    PutIsValid(reg, flushed, channel.(state := st));
    TextForOne(flushed, if channel.shape.Some? then channel.shape.value else DefaultShape, remaining, key);
  }

  lemma {:induction false} FlushKeysFor(cfg: Settings, reg: Registry, keys: seq<string>, key: string)
    requires cfg.WellFormed() && reg.Valid() && Distinct(keys)
    requires forall k | k in keys :: k == MAIN_TEXT || k in reg.keys
    ensures var (after, deltas) := FlushKeys(cfg, reg, keys);
            && after.Valid() && after.keys == reg.keys
            && after.StateOf(key) == (if key in keys then LoneStep(cfg.For(key), key, reg.StateOf(key), FlushAll).0
                                      else reg.StateOf(key))
            && TextFor(deltas, key) == (if key in keys then LoneStep(cfg.For(key), key, reg.StateOf(key), FlushAll).1
                                        else "")
    decreases |keys|
  {
    if |keys| > 0 {
      var (flushed, first) := FlushOne(cfg, reg, keys[0]);
      FlushOneFor(cfg, reg, keys[0], key);
      FlushKeysFor(cfg, flushed, keys[1..], key);
      TextForAppend(first, FlushKeys(cfg, flushed, keys[1..]).1, key);
    }
  }

  /** One event does to a channel what it does to the channel's redactor on its own. */
  lemma HandleIsLone(cfg: Settings, reg: Registry, e: Event, key: string)
    requires cfg.WellFormed() && reg.Valid()
    ensures var (after, deltas) := Handle(cfg, reg, e);
            && after.Valid()
            && (after.StateOf(key), TextFor(deltas, key)) == LoneStep(cfg.For(key), key, reg.StateOf(key), e)
  {
    match e
    case Text(k, shape, text) =>
      var (st, safe) := Feed(cfg.For(k), reg.Get(k).state, text);
      PutIsValid(reg, k, Channel(st, Some(shape)));
      TextForOne(k, shape, safe, key);
    case FlushAll =>
      FlushHandled(cfg, reg, key);
  }

  lemma FlushHandled(cfg: Settings, reg: Registry, key: string)
    requires cfg.WellFormed() && reg.Valid()
    ensures var (after, deltas) := Handle(cfg, reg, FlushAll);
            && after.Valid()
            && (after.StateOf(key), TextFor(deltas, key)) == LoneStep(cfg.For(key), key, reg.StateOf(key), FlushAll)
  {
    SortKeysSorts(reg.keys);
    var keys := [MAIN_TEXT] + SortKeys(reg.keys);
    assert Distinct(keys);
    FlushKeysFor(cfg, reg, keys, key);
  }

  /** Main result: for every interleaving of channels and flushes, the text emitted for a channel is that of a
      separate redactor run on that channel's own pieces. */
  lemma {:induction false} ChannelsAreIsolated(cfg: Settings, reg: Registry, events: seq<Event>, key: string)
    requires cfg.WellFormed() && reg.Valid()
    ensures var (after, deltas) := HandleAll(cfg, reg, events);
            && after.Valid()
            && (after.StateOf(key), TextFor(deltas, key)) == Lone(cfg.For(key), key, reg.StateOf(key), events)
    decreases |events|
  {
    if |events| > 0 {
      var before := events[..|events| - 1];
      ChannelsAreIsolated(cfg, reg, before, key);
      var (mid, emitted) := HandleAll(cfg, reg, before);
      HandleIsLone(cfg, mid, events[|events| - 1], key);
      TextForAppend(emitted, Handle(cfg, mid, events[|events| - 1]).1, key);
    }
  }

  // ---- Between two flushes --------------------------------------------------------------------

  /** The pieces of one channel, in order. */
  function PiecesOf(events: seq<Event>, key: string): seq<string>
    decreases |events|
  {
    if |events| == 0 then []
    else
      var before, last := PiecesOf(events[..|events| - 1], key), events[|events| - 1];
      if last.Text? && last.key == key then before + [last.text] else before
  }

  lemma {:induction false} LoneIsFeedAll(cfg: Config, key: string, st: Option<State>, events: seq<Event>)
    requires cfg.WellFormed() && (st.Some? ==> Alike(st.value, INITIAL)) && forall e | e in events :: e.Text?
    ensures var (after, emitted) := Lone(cfg, key, st, events);
            var (alone, fed) := FeedAll(cfg, INITIAL, PiecesOf(events, key));
            && emitted == fed
            && (after.Some? <==> st.Some? || PiecesOf(events, key) != [])
            && Alike(if after.Some? then after.value else INITIAL, alone)
    decreases |events|
  {
    if |events| > 0 {
      var before, last := events[..|events| - 1], events[|events| - 1];
      LoneIsFeedAll(cfg, key, st, before);
      var (mid, emitted) := Lone(cfg, key, st, before);
      if last.key == key {
        OnePieceMore(cfg, PiecesOf(before, key), last.text, if mid.Some? then mid.value else INITIAL);
      } else {
        AppendNil(emitted);
      }
    }
  }

  lemma OnePieceMore(cfg: Config, pieces: seq<string>, text: string, st: State)
    requires cfg.WellFormed() && Alike(st, FeedAll(cfg, INITIAL, pieces).0)
    ensures var (alone, fed) := FeedAll(cfg, INITIAL, pieces + [text]);
            var (after, more) := Feed(cfg, st, text);
            Alike(after, alone) && fed == FeedAll(cfg, INITIAL, pieces).1 + more
  {
    LastOfAppend(pieces, [text]);
    AppendNil(pieces);
    FeedAlike(cfg, st, FeedAll(cfg, INITIAL, pieces).0, text);
  }

  /** No redactor yet, or one with nothing pending and nothing suppressed. */
  predicate Unused(st: Option<State>) {
    st.Some? ==> Alike(st.value, INITIAL)
  }

  lemma LoneSegment(cfg: Config, key: string, st: Option<State>, events: seq<Event>)
    requires cfg.WellFormed() && Unused(st) && forall e | e in events :: e.Text?
    ensures var (after, shown) := Lone(cfg, key, st, events + [FlushAll]);
            && Unused(after)
            && shown == if st.None? && PiecesOf(events, key) == [] then "" else Process(cfg, INITIAL, PiecesOf(events, key))
  {
    var all := events + [FlushAll];
    assert all[..|all| - 1] == events;
    LoneIsFeedAll(cfg, key, st, events);
    AppendNil(Lone(cfg, key, st, events).1);
  }

  /** From a flush to the next, a channel emits exactly the whole-stream redaction of the pieces it got in
      between, so all that is proved of one redactor holds of every channel. A channel that has never had a
      piece emits nothing. */
  lemma SegmentIsProcess(cfg: Settings, reg: Registry, events: seq<Event>, key: string)
    requires cfg.WellFormed() && reg.Valid() && forall e | e in events :: e.Text?
    requires Unused(reg.StateOf(key))
    ensures TextFor(HandleAll(cfg, reg, events + [FlushAll]).1, key)
         == if reg.StateOf(key).None? && PiecesOf(events, key) == [] then ""
            else Process(cfg.For(key), INITIAL, PiecesOf(events, key))
  {
    ChannelsAreIsolated(cfg, reg, events + [FlushAll], key);
    LoneSegment(cfg.For(key), key, reg.StateOf(key), events);
  }

  /** In particular no segment of any channel shows a social security number. */
  lemma NoSsnInAnySegment(cfg: Settings, reg: Registry, events: seq<Event>, key: string, digit: char -> bool, k: nat)
    requires cfg.WellFormed() && reg.Valid() && forall e | e in events :: e.Text?
    requires Unused(reg.StateOf(key))
    requires Ssn.DigitClass(digit) && cfg.For(key).placeholder == Ssn.REDACTION_PLACEHOLDER
    requires k < |cfg.For(key).patterns| && Catches(cfg.For(key).patterns[k], Ssn.Language(digit))
    ensures Ssn.NoSsnIn(digit, TextFor(HandleAll(cfg, reg, events + [FlushAll]).1, key))
  {
    SegmentIsProcess(cfg, reg, events, key);
    Ssn.NoSsnEverLeaves(cfg.For(key), digit, k, PiecesOf(events, key));
  }

  /** A flush leaves every channel ready for the next segment. */
  lemma FlushLeavesReady(cfg: Settings, reg: Registry, key: string)
    requires cfg.WellFormed() && reg.Valid() && reg.StateOf(key).Some?
    ensures var after := Handle(cfg, reg, FlushAll).0;
            after.Valid() && after.StateOf(key).Some? && Alike(after.StateOf(key).value, INITIAL)
  {
    FlushHandled(cfg, reg, key);
  }
}
