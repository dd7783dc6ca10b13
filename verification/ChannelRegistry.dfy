/** The registry object: one redactor object per channel, created on first use. */
module ChannelRegistries {
  import opened Basics
  import opened Detectors
  import opened Redaction
  import opened Channels
  import opened StreamRedactors

  /** The ceiling of a redactor built without one. */
  predicate DefaultCeiling(cfg: Config) {
    |cfg.patterns| > 0 && cfg.maxHoldback == LongestMatch(cfg.patterns) + 8
  }

  /** `keys` lists the keys of the other channels, each once. */
  ghost predicate Lists(keys: seq<string>, known: set<string>) {
    MAIN_TEXT !in keys && Distinct(keys) && forall key :: key in known <==> key in keys
  }

  lemma ListsAppend(keys: seq<string>, known: set<string>, key: string)
    requires Lists(keys, known) && key != MAIN_TEXT && key !in known
    ensures Lists(keys + [key], known + {key})
  {
    DistinctAppend(keys, key);
  }

  /** No two channels share a redactor. */
  ghost predicate Apart(main: StreamRedactor, redactors: map<string, StreamRedactor>) {
    && (forall key | key in redactors :: redactors[key] != main)
    && (forall a, b | a in redactors && b in redactors && a != b :: redactors[a] != redactors[b])
  }

  ghost predicate Absent(r: StreamRedactor, redactors: map<string, StreamRedactor>) {
    forall key | key in redactors :: redactors[key] != r
  }

  ghost predicate AllHave(cfg: Config, redactors: map<string, StreamRedactor>) {
    forall key | key in redactors :: redactors[key].cfg == cfg
  }

  lemma ApartInsert(main: StreamRedactor, redactors: map<string, StreamRedactor>, key: string, r: StreamRedactor)
    requires Apart(main, redactors) && r != main && Absent(r, redactors)
    ensures Apart(main, redactors[key := r])
  {
  }

  ghost function ChannelsOf(redactors: map<string, StreamRedactor>, shapes: map<string, Option<Shape>>): map<string, Channel>
    requires shapes.Keys == redactors.Keys
    reads redactors.Values
  {
    map key | key in redactors :: Channel(redactors[key].State(), shapes[key])
  }

  lemma ChannelsInsert(redactors: map<string, StreamRedactor>, shapes: map<string, Option<Shape>>, key: string,
                       r: StreamRedactor, shape: Option<Shape>)
    requires shapes.Keys == redactors.Keys
    ensures shapes[key := shape].Keys == redactors[key := r].Keys == redactors.Keys + {key}
    ensures ChannelsOf(redactors[key := r], shapes[key := shape])
         == ChannelsOf(redactors, shapes)[key := Channel(r.State(), shape)]
  {
  }

  class ChannelRegistry {
    const cfg: Settings
    const main: StreamRedactor
    var rebuildMain: Option<Shape>
    var keys: seq<string>
    var redactors: map<string, StreamRedactor>
    var shapes: map<string, Option<Shape>>

    /** The redactors are different objects, so that feeding one leaves the others alone. */
    ghost predicate Valid()
      reads this, main, redactors.Values
    {
      && main.cfg == cfg.main
      && Lists(keys, redactors.Keys)
      && shapes.Keys == redactors.Keys
      && Apart(main, redactors)
      && AllHave(cfg.others, redactors)
    }

    ghost function Others(): map<string, Channel>
      requires shapes.Keys == redactors.Keys
      reads this`redactors, this`shapes, redactors.Values
    {
      ChannelsOf(redactors, shapes)
    }

    ghost function State(): Registry
      requires shapes.Keys == redactors.Keys
      reads this, main, redactors.Values
    {
      Registry(Channel(main.State(), rebuildMain), keys, Others())
    }

    constructor (cfg: Settings, main: StreamRedactor)
      requires main.cfg == cfg.main && main.State() == INITIAL
      ensures Valid() && this.cfg == cfg && this.main == main && redactors == map[]
      ensures State() == Registry(Channel(INITIAL, None), [], map[])
    {
      this.cfg, this.main := cfg, main;
      rebuildMain, keys, redactors, shapes := None, [], map[], map[];
    }

    static method NewRedactor(cfg: Config) returns (r: StreamRedactor)
      requires cfg.WellFormed() && DefaultCeiling(cfg)
      ensures fresh(r) && r.cfg == cfg && r.State() == INITIAL
    {
      r := new StreamRedactor(cfg.patterns, cfg.placeholder, None, cfg.runCharacter);
    }

    /** Put an unused redactor in the registry for a new channel. */
    method Register(key: string, r: StreamRedactor)
      requires Valid() && key != MAIN_TEXT && key !in redactors
      requires r.cfg == cfg.others && r.State() == INITIAL && r != main
      requires Absent(r, redactors)
      modifies this`keys, this`redactors, this`shapes
      ensures Valid()
      ensures redactors == old(redactors)[key := r]
      ensures State() == old(State()).Put(key, Channel(INITIAL, None))
    {
      ApartInsert(main, redactors, key, r);
      ListsAppend(keys, redactors.Keys, key);
      ChannelsInsert(redactors, shapes, key, r, None);
      PutNew(State(), key, Channel(INITIAL, None));
      keys := keys + [key];
      redactors := redactors[key := r];
      shapes := shapes[key := None];
      assert AllHave(cfg.others, redactors);
    }

    /** The redactor of a channel. */
    method Get(key: string) returns (r: StreamRedactor)
      requires cfg.WellFormed() && DefaultCeiling(cfg.others) && Valid()
      modifies this`keys, this`redactors, this`shapes
      ensures Valid() && (key == MAIN_TEXT || key in redactors)
      ensures r == if key == MAIN_TEXT then main else redactors[key]
      ensures fresh(redactors.Values - old(redactors.Values))
      ensures State() == old(State()).Put(key, old(State()).Get(key))
    {
      if key == MAIN_TEXT {
        return main;
      }
      if key !in redactors {
        var redactor := NewRedactor(cfg.others);
        Register(key, redactor);
      }
      r := redactors[key];
    }

    method Remember(key: string, shape: Shape)
      requires Valid() && (key == MAIN_TEXT || key in redactors)
      modifies this`rebuildMain, this`shapes
      ensures Valid() && State() == old(State()).Put(key, old(State()).Get(key).(shape := Some(shape)))
    {
      if key == MAIN_TEXT {
        rebuildMain := Some(shape);
      } else {
        ChannelsInsert(redactors, shapes, key, redactors[key], Some(shape));
        assert redactors[key := redactors[key]] == redactors;
        shapes := shapes[key := Some(shape)];
      }
    }

    method FeedChannel(key: string, text: string) returns (safe: string)
      requires cfg.WellFormed() && Valid() && (key == MAIN_TEXT || key in redactors)
      modifies main, redactors.Values
      ensures Valid() && redactors == old(redactors)
      ensures var (st, released) := Feed(cfg.For(key), old(State()).Get(key).state, text);
              safe == released && State() == old(State()).Put(key, old(State()).Get(key).(state := st))
    {
      var r := if key == MAIN_TEXT then main else redactors[key];
      safe := r.Feed(text);
      if key == MAIN_TEXT {
        assert Others() == old(Others());
      } else {
        assert Others() == old(Others())[key := Channel(r.State(), shapes[key])];
      }
    }

    /** A delta event with one recognised text leaf. */
    method HandleText(key: string, shape: Shape, text: string) returns (emitted: seq<Delta>)
      requires cfg.WellFormed() && DefaultCeiling(cfg.others) && Valid()
      modifies this, main, redactors.Values
      ensures Valid() && fresh(redactors.Values - old(redactors.Values))
      ensures (State(), emitted) == OnText(cfg, old(State()), key, shape, text)
    {
      ghost var channel := State().Get(key);
      var _ := Get(key);
      Remember(key, shape);
      var safe := FeedChannel(key, text);
      PutTwice(old(State()), key, channel, channel.(shape := Some(shape)));
      PutTwice(old(State()), key, channel.(shape := Some(shape)), State().Get(key));
      emitted := if safe == "" then [] else [Delta(key, shape, safe)];
    }

    /** Release the held tail of one channel. */
    method FlushChannel(key: string) returns (emitted: seq<Delta>)
      requires cfg.WellFormed() && Valid() && (key == MAIN_TEXT || key in redactors)
      modifies main, redactors.Values
      ensures Valid()
      ensures (State(), emitted) == FlushOne(cfg, old(State()), key)
    {
      var r := if key == MAIN_TEXT then main else redactors[key];
      var remaining := r.Flush();
      if key == MAIN_TEXT {
        assert Others() == old(Others());
      } else {
        assert Others() == old(Others())[key := Channel(r.State(), shapes[key])];
      }
      var rebuild := if key == MAIN_TEXT then rebuildMain else shapes[key];
      var shape := if rebuild.Some? then rebuild.value else DefaultShape;
      emitted := if remaining == "" then [] else [Delta(key, shape, remaining)];
    }

    /** Release every held tail, in a deterministic order. */
    method FlushEverything() returns (emitted: seq<Delta>)
      requires cfg.WellFormed() && Valid()
      modifies main, redactors.Values
      ensures Valid()
      ensures (State(), emitted) == Handle(cfg, old(State()), FlushAll)
    {
      SortKeysSorts(keys);
      var order := [MAIN_TEXT] + SortKeys(keys);
      emitted := [];
      for i := 0 to |order|
        invariant Valid()
        invariant FlushKeys(cfg, old(State()), order).0 == FlushKeys(cfg, State(), order[i..]).0
        invariant FlushKeys(cfg, old(State()), order).1 == emitted + FlushKeys(cfg, State(), order[i..]).1
      {
        assert order[i..][0] == order[i] && order[i..][1..] == order[i + 1..];
        var one := FlushChannel(order[i]);
        Associative(emitted, one, FlushKeys(cfg, State(), order[i + 1..]).1);
        emitted := emitted + one;
      }
      assert |order[|order|..]| == 0;
      AppendNil(emitted);
    }
  }
}
