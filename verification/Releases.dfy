/** What a flush releases: for each channel at most one event, in the shape of that channel's last delta, the main
    channel first and the others in the order of their keys. */
module Releases {
  import opened Basics
  import opened Redaction
  import opened Channels

  /** The shape of the last delta of a channel. */
  function LastShape(events: seq<Event>, key: string): Option<Shape>
    decreases |events|
  {
    if |events| == 0 then None
    else
      var last := events[|events| - 1];
      if last.Text? && last.key == key then Some(last.shape) else LastShape(events[..|events| - 1], key)
  }

  function ShapeOf(reg: Registry, key: string): Option<Shape> {
    reg.Get(key).shape
  }

  lemma FlushOneKeepsShapes(cfg: Settings, reg: Registry, flushed: string, key: string)
    requires cfg.WellFormed()
    ensures ShapeOf(FlushOne(cfg, reg, flushed).0, key) == ShapeOf(reg, key)
  {
  }

  lemma {:induction false} FlushKeepsShapes(cfg: Settings, reg: Registry, keys: seq<string>, key: string)
    requires cfg.WellFormed()
    ensures ShapeOf(FlushKeys(cfg, reg, keys).0, key) == ShapeOf(reg, key)
    decreases |keys|
  {
    if |keys| > 0 {
      FlushOneKeepsShapes(cfg, reg, keys[0], key);
      FlushKeepsShapes(cfg, FlushOne(cfg, reg, keys[0]).0, keys[1..], key);
    }
  }

  lemma TextRemembers(cfg: Settings, reg: Registry, key: string, shape: Shape, text: string, k: string)
    requires cfg.WellFormed()
    ensures ShapeOf(OnText(cfg, reg, key, shape, text).0, k) == if k == key then Some(shape) else ShapeOf(reg, k)
  {
  }

  /** A channel remembers the shape of its last delta, through every flush. */
  lemma {:induction false} ShapeIsLast(cfg: Settings, reg: Registry, events: seq<Event>, key: string)
    requires cfg.WellFormed()
    ensures ShapeOf(HandleAll(cfg, reg, events).0, key)
         == if LastShape(events, key).Some? then LastShape(events, key) else ShapeOf(reg, key)
    decreases |events|
  {
    if |events| > 0 {
      var k := |events| - 1;
      ShapeIsLast(cfg, reg, events[..k], key);
      var before := HandleAll(cfg, reg, events[..k]).0;
      match events[k]
      case Text(from, shape, text) => TextRemembers(cfg, before, from, shape, text, key);
      case FlushAll => FlushKeepsShapes(cfg, before, [MAIN_TEXT] + SortKeys(before.keys), key);
    }
  }

  function Shaped(shape: Option<Shape>): Shape {
    if shape.Some? then shape.value else DefaultShape
  }

  /** The released events follow the order of `keys`, one at most for each, shaped as the channels remember. */
  ghost predicate Released(reg: Registry, keys: seq<string>, deltas: seq<Delta>)
    decreases |keys|
  {
    if |keys| == 0 then deltas == []
    else if |deltas| > 0 && deltas[0].key == keys[0] then
      deltas[0].text != "" && deltas[0].shape == Shaped(ShapeOf(reg, keys[0])) && Released(reg, keys[1..], deltas[1..])
    else Released(reg, keys[1..], deltas)
  }

  lemma {:induction false} SameShapesReleased(a: Registry, b: Registry, keys: seq<string>, deltas: seq<Delta>)
    requires forall key :: ShapeOf(a, key) == ShapeOf(b, key)
    requires Released(a, keys, deltas)
    ensures Released(b, keys, deltas)
    decreases |keys|
  {
    if |keys| > 0 {
      if |deltas| > 0 && deltas[0].key == keys[0] {
        SameShapesReleased(a, b, keys[1..], deltas[1..]);
      } else {
        SameShapesReleased(a, b, keys[1..], deltas);
      }
    }
  }

  lemma {:induction false} ReleasedKeys(reg: Registry, keys: seq<string>, deltas: seq<Delta>)
    requires Released(reg, keys, deltas)
    ensures forall d | d in deltas :: d.key in keys
    decreases |keys|
  {
    if |keys| > 0 {
      if |deltas| > 0 && deltas[0].key == keys[0] {
        ReleasedKeys(reg, keys[1..], deltas[1..]);
      } else {
        ReleasedKeys(reg, keys[1..], deltas);
      }
    }
  }

  lemma {:induction false} KeysReleased(cfg: Settings, reg: Registry, keys: seq<string>)
    requires cfg.WellFormed() && Distinct(keys)
    ensures Released(reg, keys, FlushKeys(cfg, reg, keys).1)
    decreases |keys|
  {
    if |keys| > 0 {
      var (flushed, first) := FlushOne(cfg, reg, keys[0]);
      var rest := FlushKeys(cfg, flushed, keys[1..]).1;
      KeysReleased(cfg, flushed, keys[1..]);
      forall key
        ensures ShapeOf(flushed, key) == ShapeOf(reg, key)
      {
        FlushOneKeepsShapes(cfg, reg, keys[0], key);
      }
      SameShapesReleased(flushed, reg, keys[1..], rest);
      OneReleased(reg, keys, first, rest);
    }
  }

  lemma OneReleased(reg: Registry, keys: seq<string>, first: seq<Delta>, rest: seq<Delta>)
    requires |keys| > 0 && Distinct(keys) && Released(reg, keys[1..], rest)
    requires first == [] || (|first| == 1 && first[0].key == keys[0] && first[0].text != ""
                             && first[0].shape == Shaped(ShapeOf(reg, keys[0])))
    ensures Released(reg, keys, first + rest)
  {
    AppendNil(rest);
    if first == [] {
      ReleasedKeys(reg, keys[1..], rest);
      assert forall i | 0 <= i < |keys[1..]| :: keys[1..][i] == keys[i + 1];
    } else {
      AppendUncons(first, rest);
      assert |first[1..]| == 0;
    }
  }

  lemma {:induction false} ReleasedShape(reg: Registry, keys: seq<string>, deltas: seq<Delta>, d: Delta)
    requires Released(reg, keys, deltas) && d in deltas
    ensures d.text != "" && d.shape == Shaped(ShapeOf(reg, d.key))
    decreases |keys|
  {
    if |deltas| > 0 && deltas[0].key == keys[0] {
      if d != deltas[0] {
        ReleasedShape(reg, keys[1..], deltas[1..], d);
      }
    } else {
      ReleasedShape(reg, keys[1..], deltas, d);
    }
  }

  /** Main result: after any events, a flush releases each tail in the shape of its channel's last delta, or in the
      default shape if the channel never had one; the main channel's first, and then the others' by key. */
  lemma TailsKeepTheirShape(cfg: Settings, reg: Registry, events: seq<Event>)
    requires cfg.WellFormed() && reg.Valid()
    ensures var before := HandleAll(cfg, reg, events).0;
            var deltas := Handle(cfg, before, FlushAll).1;
            && Released(before, [MAIN_TEXT] + SortKeys(before.keys), deltas)
            && forall d | d in deltas ::
                 && d.text != ""
                 && d.shape == Shaped(if LastShape(events, d.key).Some? then LastShape(events, d.key) else ShapeOf(reg, d.key))
  {
    var before := HandleAll(cfg, reg, events).0;
    HandleAllValid(cfg, reg, events);
    SortKeysSorts(before.keys);
    var keys := [MAIN_TEXT] + SortKeys(before.keys);
    assert Distinct(keys);
    KeysReleased(cfg, before, keys);
    var deltas := Handle(cfg, before, FlushAll).1;
    forall d | d in deltas
      ensures d.text != "" && d.shape == Shaped(if LastShape(events, d.key).Some? then LastShape(events, d.key) else ShapeOf(reg, d.key))
    {
      ReleasedShape(before, keys, deltas, d);
      ShapeIsLast(cfg, reg, events, d.key);
    }
  }

  lemma {:induction false} HandleAllValid(cfg: Settings, reg: Registry, events: seq<Event>)
    requires cfg.WellFormed() && reg.Valid()
    ensures HandleAll(cfg, reg, events).0.Valid()
    decreases |events|
  {
    if |events| > 0 {
      var k := |events| - 1;
      HandleAllValid(cfg, reg, events[..k]);
      HandleIsLone(cfg, HandleAll(cfg, reg, events[..k]).0, events[k], MAIN_TEXT);
    }
  }

  /** A delta comes out, if anything of it does, on its own channel and in its own shape, with the text that its
      channel's redactor releases for it. */
  lemma DeltasKeepTheirShape(cfg: Settings, reg: Registry, key: string, shape: Shape, text: string)
    requires cfg.WellFormed() && reg.Valid()
    ensures var (after, deltas) := Handle(cfg, reg, Text(key, shape, text));
            var released := Feed(cfg.For(key), if reg.StateOf(key).Some? then reg.StateOf(key).value else INITIAL, text).1;
            && deltas == (if released == "" then [] else [Delta(key, shape, released)])
            && ShapeOf(after, key) == Some(shape)
  {
  }
}
