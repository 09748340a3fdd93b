/** Handing a client's environment to a running server (`client_env.rs`): the
    block codec, and the plan that turns one environment into another. */
module EnvHandoff {
  import opened Text

  type Byte = n: nat | n < 0x100
  /** A wide string: UTF-16 code units, as the operating system stores names and values. */
  type Wide = seq<U16>

  datatype Var = Var(name: Wide, value: Wide)

  const EQUALS: U16 := 61
  const NUL: U16 := 0

  // ----- the block codec -----

  /** Entries a block can carry. */
  predicate Encodable(name: Wide) { name != [] && name[0] != EQUALS && NUL !in name }

  function UpToNul(w: Wide): (r: Wide)
    ensures NUL !in r
    ensures NUL !in w ==> r == w
  {
    if w == [] || w[0] == NUL then [] else [w[0]] + UpToNul(w[1..])
  }

  function EntryUnits(v: Var): seq<U16> {
    if Encodable(v.name) then v.name + ([EQUALS] + (UpToNul(v.value) + [NUL])) else []
  }

  function EntriesUnits(vars: seq<Var>): seq<U16> {
    if vars == [] then [] else EntryUnits(vars[0]) + EntriesUnits(vars[1..])
  }

  function BlockUnits(vars: seq<Var>): seq<U16> { EntriesUnits(vars) + [NUL] }

  lemma BlockUnitsSplits(vars: seq<Var>)
    ensures vars == [] ==> BlockUnits(vars) == [NUL]
    ensures vars != [] ==> BlockUnits(vars) == EntryUnits(vars[0]) + BlockUnits(vars[1..])
  {
    hide EntryUnits;
  }

  /** Little-endian bytes. */
  function ToBytes(units: seq<U16>): (b: seq<Byte>)
    ensures |b| == 2 * |units|
  {
    if units == [] then [] else [units[0] % 0x100, units[0] / 0x100] + ToBytes(units[1..])
  }

  function Encode(vars: seq<Var>): seq<Byte> { ToBytes(BlockUnits(vars)) }

  lemma {:induction false} EntriesSnoc(vars: seq<Var>, k: nat)
    requires k < |vars|
    ensures EntriesUnits(vars[..k + 1]) == EntriesUnits(vars[..k]) + EntryUnits(vars[k])
  {
    hide EntryUnits;
    if k == 0 {
      assert vars[..1] == [vars[0]];
      assert EntriesUnits([]) == [];
    } else {
      assert vars[..k][1..] == vars[1..][..k - 1] && vars[..k + 1][1..] == vars[1..][..k];
      EntriesSnoc(vars[1..], k - 1);
    }
  }

  /** The units of one entry, as the encoder appends them. */
  lemma EntryAppends(units: seq<U16>, v: Var)
    ensures units + EntryUnits(v) ==
              if Encodable(v.name) then units + v.name + [EQUALS] + UpToNul(v.value) + [NUL] else units
  {
    hide UpToNul;
  }

  /** `encode_env_block`. */
  method EncodeEnvBlock(vars: seq<Var>) returns (bytes: seq<Byte>)
    ensures bytes == Encode(vars)
  {
    hide EntryUnits, EntriesUnits, UpToNul;
    var units: seq<U16> := [];
    NoEntries();
    for i := 0 to |vars|
      invariant units == EntriesUnits(vars[..i])
    {
      EntriesSnoc(vars, i);
      EntryAppends(units, vars[i]);
      var name := vars[i].name;
      if name == [] || name[0] == EQUALS || NUL in name { continue; }
      units := units + name;
      units := units + [EQUALS];
      units := units + UpToNul(vars[i].value);
      units := units + [NUL];
    }
    assert vars[..|vars|] == vars;
    units := units + [NUL];
    bytes := [];
    assert units[0..] == units;
    for i := 0 to |units|
      invariant bytes + ToBytes(units[i..]) == ToBytes(units)
    {
      assert units[i..][1..] == units[i + 1..];
      bytes := bytes + [units[i] % 0x100, units[i] / 0x100];
    }
  }

  lemma NoEntries()
    ensures EntriesUnits([]) == []
  {}

  function FromBytes(b: seq<Byte>): (units: seq<U16>)
    requires |b| % 2 == 0
  {
    if b == [] then []
    else
      var low: int, high: int := b[0], b[1];
      var unit: U16 := low + 0x100 * high;
      [unit] + FromBytes(b[2..])
  }

  /** First position of a unit, or the length. */
  function IndexOf(w: Wide, u: U16): (i: nat)
    ensures i <= |w|
  {
    if w == [] || w[0] == u then 0 else 1 + IndexOf(w[1..], u)
  }

  /** The name ends at the first `=` that is not the first character; an entry
      without one is skipped. */
  function DecodeEntry(e: Wide): seq<Var> {
    if e == [] then []
    else
      var eq := 1 + IndexOf(e[1..], EQUALS);
      if eq == |e| then [] else [Var(e[..eq], e[eq + 1..])]
  }

  /** The entries between NULs. */
  function DecodeUnits(units: seq<U16>): seq<Var>
    decreases |units|
  {
    var n := IndexOf(units, NUL);
    DecodeEntry(units[..n]) + (if n < |units| then DecodeUnits(units[n + 1..]) else [])
  }

  function Decode(bytes: seq<Byte>): Option<seq<Var>> {
    if |bytes| % 2 != 0 then None else Some(DecodeUnits(FromBytes(bytes)))
  }

  /** `decode_env_block`. */
  method DecodeEnvBlock(bytes: seq<Byte>) returns (r: Option<seq<Var>>)
    ensures r == Decode(bytes)
  {
    hide DecodeEntry, DecodeUnits;
    if |bytes| % 2 != 0 { return None; }
    var units := FromBytes(bytes);
    var out: seq<Var> := [];
    var i: nat := 0;
    assert units[0..] == units && [] + DecodeUnits(units) == DecodeUnits(units);
    while true
      invariant i <= |units|
      invariant out + DecodeUnits(units[i..]) == DecodeUnits(units)
      decreases |units| - i
    {
      var n := IndexOf(units[i..], NUL);
      DecodeFrom(units, i, out);
      out := out + DecodeEntry(units[i..][..n]);
      if i + n == |units| {
        assert out + [] == out;
        return Some(out);
      }
      i := i + n + 1;
    }
  }

  lemma DecodeFrom(units: seq<U16>, i: nat, before: seq<Var>)
    requires i <= |units|
    ensures var n := IndexOf(units[i..], NUL);
            before + DecodeUnits(units[i..]) ==
              (before + DecodeEntry(units[i..][..n]))
              + (if i + n < |units| then DecodeUnits(units[i + n + 1..]) else [])
  {
    hide DecodeEntry;
    var here := units[i..];
    var n := IndexOf(here, NUL);
    assert i + n < |units| ==> here[n + 1..] == units[i + n + 1..];
    Associate(before, DecodeEntry(here[..n]), if n < |here| then DecodeUnits(here[n + 1..]) else []);
  }

  lemma {:induction false} BytesRoundTrip(units: seq<U16>)
    ensures FromBytes(ToBytes(units)) == units
  {
    if units != [] {
      BytesRoundTrip(units[1..]);
      assert ToBytes(units)[2..] == ToBytes(units[1..]);
    }
  }

  lemma {:induction false} IndexAfter(a: Wide, u: U16, b: Wide)
    requires u !in a
    ensures IndexOf(a + ([u] + b), u) == |a|
    ensures IndexOf(a, u) == |a|
  {
    if a == [] {
      assert a + ([u] + b) == [u] + b;
    } else {
      assert (a + ([u] + b))[1..] == a[1..] + ([u] + b);
      IndexAfter(a[1..], u, b);
    }
  }

  lemma {:induction false} IndexInside(a: Wide, u: U16, b: Wide)
    requires u in a
    ensures IndexOf(a + b, u) < |a|
  {
    assert (a + b)[0] == a[0] && (a + b)[1..] == a[1..] + b;
    if a[0] != u { IndexInside(a[1..], u, b); }
  }

  /** What a block says about an environment: the encodable entries, values cut
      at a NUL. */
  function Sent(vars: seq<Var>): seq<Var> {
    if vars == [] then []
    else (if Encodable(vars[0].name) then [Var(vars[0].name, UpToNul(vars[0].value))] else []) + Sent(vars[1..])
  }

  /** An entry reads back as itself exactly when its name has no `=`. */
  lemma EntryRoundTrip(name: Wide, value: Wide)
    requires Encodable(name)
    ensures |DecodeEntry(name + ([EQUALS] + value))| == 1
    ensures DecodeEntry(name + ([EQUALS] + value)) == [Var(name, value)] <==> EQUALS !in name
  {
    var e := name + ([EQUALS] + value);
    assert e[1..] == name[1..] + ([EQUALS] + value);
    assert name == [name[0]] + name[1..];
    if EQUALS in name {
      IndexInside(name[1..], EQUALS, [EQUALS] + value);
      var eq := 1 + IndexOf(e[1..], EQUALS);
      assert |e[..eq]| < |name|;
    } else {
      IndexAfter(name[1..], EQUALS, value);
      assert e[..|name|] == name && e[|name| + 1..] == value;
    }
  }

  lemma EntryDecodes(name: Wide, value: Wide, rest: seq<U16>)
    requires Encodable(name) && NUL !in value
    ensures DecodeUnits(name + ([EQUALS] + (value + [NUL])) + rest)
         == DecodeEntry(name + ([EQUALS] + value)) + DecodeUnits(rest)
  {
    hide DecodeEntry;
    var e := name + ([EQUALS] + value);
    var units := name + ([EQUALS] + (value + [NUL])) + rest;
    assert units == e + ([NUL] + rest);
    IndexAfter(e, NUL, rest);
    assert units[..|e|] == e && units[|e| + 1..] == rest;
  }

  ghost predicate PlainNames(vars: seq<Var>) {
    forall v <- vars :: Encodable(v.name) ==> EQUALS !in v.name
  }

  lemma {:induction false} UnitsRoundTrip(vars: seq<Var>)
    ensures |DecodeUnits(BlockUnits(vars))| == |Sent(vars)|
    ensures DecodeUnits(BlockUnits(vars)) == Sent(vars) <==> PlainNames(vars)
  {
    hide DecodeUnits, DecodeEntry, Encodable, UpToNul, BlockUnits;
    BlockUnitsSplits(vars);
    if vars == [] {
      LastNul();
    } else {
      var v := vars[0];
      UnitsRoundTrip(vars[1..]);
      assert PlainNames(vars) <==> (Encodable(v.name) ==> EQUALS !in v.name) && PlainNames(vars[1..]) by {
        assert forall w :: w in vars <==> w == v || w in vars[1..];
      }
      if Encodable(v.name) {
        EntryDecodes(v.name, UpToNul(v.value), BlockUnits(vars[1..]));
        EntryRoundTrip(v.name, UpToNul(v.value));
        SameHeads(DecodeEntry(v.name + ([EQUALS] + UpToNul(v.value))), [Var(v.name, UpToNul(v.value))],
                  DecodeUnits(BlockUnits(vars[1..])), Sent(vars[1..]));
      } else {
        assert EntryUnits(v) + BlockUnits(vars[1..]) == BlockUnits(vars[1..]);
        assert Sent(vars) == Sent(vars[1..]);
      }
    }
  }

  lemma LastNul()
    ensures DecodeUnits([NUL]) == []
  {
    assert IndexOf([NUL], NUL) == 0 && [NUL][..0] == [] && [NUL][1..] == [];
    assert DecodeUnits([]) == [];
  }

  /** A block decodes to the entries that were sent exactly when no encodable
      name contains an `=`. */
  lemma BlockRoundTrip(vars: seq<Var>)
    ensures Decode(Encode(vars)) == Some(Sent(vars)) <==> PlainNames(vars)
  {
    hide BlockUnits, DecodeUnits;
    BytesRoundTrip(BlockUnits(vars));
    UnitsRoundTrip(vars);
  }

  function WideOf(s: string): Wide { seq(|s|, i requires 0 <= i < |s| => s[i] as int % 0x1_0000) }

  /** The variable `A=B` with the value `C` arrives as `A` with the value `B=C`. This is an
      edge of the codec alone: an operating system hands out no such name. */
  lemma InnerEqualsMoves()
    ensures var (sent, read) := (Var(WideOf("A=B"), WideOf("C")), Var(WideOf("A"), WideOf("B=C")));
            Sent([sent]) == [sent] && Decode(Encode([sent])) == Some([read]) && read != sent
  {
    hide DecodeUnits, BlockUnits, EntryUnits;
    var (sent, read) := (Var([65, 61, 66], [67]), Var([65], [66, 61, 67]));
    assert WideOf("A=B") == sent.name && WideOf("C") == sent.value;
    assert WideOf("A") == read.name && WideOf("B=C") == read.value;
    InnerEqualsUnits();
    BlockUnitsSplits([sent]);
    BlockUnitsSplits([]);
    BytesRoundTrip(BlockUnits([sent]));
    EntryDecodes(sent.name, sent.value, [NUL]);
    LastNul();
    assert [sent][1..] == [] && [read] + [] == [read];
  }

  lemma InnerEqualsUnits()
    ensures var (sent, read) := (Var([65, 61, 66], [67]), Var([65], [66, 61, 67]));
            && Encodable(sent.name) && UpToNul(sent.value) == sent.value
            && EntryUnits(sent) == sent.name + ([EQUALS] + (sent.value + [NUL]))
            && DecodeEntry(sent.name + ([EQUALS] + sent.value)) == [read]
  {
    var sent := Var([65, 61, 66], [67]);
    var e := [65, 61, 66, 61, 67];
    assert sent.name + ([EQUALS] + sent.value) == e;
    assert e[1..][0] == EQUALS && IndexOf(e[1..], EQUALS) == 0;
    assert e[..1] == [65] && e[2..] == [66, 61, 67];
    assert [67][1..] == [] && UpToNul([67]) == [67] + UpToNul([]);
  }

  // ----- which variables may be touched -----

  /** `norm_key`: names that differ only in case are one variable. Upper-casing is
      a parameter; all it must respect is what makes a name usable. */
  type Norm = Wide -> Wide

  predicate ServerOwnedKey(key: Wide) {
    key == WideOf("PSMUX_DATA_DIR") || key == WideOf("PSMUX_TARGET_SESSION")
  }

  predicate IsServerOwned(norm: Norm, name: Wide) { ServerOwnedKey(norm(name)) }

  /** `is_settable`: a name the environment calls accept. */
  predicate IsSettable(name: Wide) { name != [] && EQUALS !in name && NUL !in name }

  ghost predicate KeepsSettable(norm: Norm) {
    forall a, b :: norm(a) == norm(b) ==> IsSettable(a) == IsSettable(b)
  }

  function UpperUnit(u: U16): U16 { if 97 <= u <= 122 then u - 32 else u }

  function AsciiUpper(w: Wide): (r: Wide)
    ensures |r| == |w|
  {
    if w == [] then [] else [UpperUnit(w[0])] + AsciiUpper(w[1..])
  }

  lemma {:induction false} AsciiUpperKeeps(w: Wide)
    ensures IsSettable(AsciiUpper(w)) == IsSettable(w)
    ensures EQUALS in AsciiUpper(w) <==> EQUALS in w
    ensures NUL in AsciiUpper(w) <==> NUL in w
  {
    if w != [] { AsciiUpperKeeps(w[1..]); }
  }

  /** Upper-casing ASCII letters is a normalisation of the kind assumed. */
  lemma AsciiUpperIsFit()
    ensures KeepsSettable(AsciiUpper)
  {
    forall a, b | AsciiUpper(a) == AsciiUpper(b) ensures IsSettable(a) == IsSettable(b) {
      AsciiUpperKeeps(a);
      AsciiUpperKeeps(b);
    }
  }

  predicate MayTouch(norm: Norm, name: Wide) { !IsServerOwned(norm, name) && IsSettable(name) }

  const MIN_SANE_ENTRIES: nat := 4

  /** `is_sane`. */
  predicate IsSane(norm: Norm, entries: seq<Var>) {
    |entries| >= MIN_SANE_ENTRIES && exists e <- entries :: norm(e.name) == WideOf("PATH") && e.value != []
  }

  // ----- the plan -----

  datatype EnvPlan = EnvPlan(set_: seq<Var>, remove: seq<Wide>)

  const NO_PLAN := EnvPlan([], [])

  function Keys(norm: Norm, vars: seq<Var>): set<Wide> {
    if vars == [] then {} else {norm(vars[0].name)} + Keys(norm, vars[1..])
  }

  /** The value of a key in a list; a later entry replaces an earlier one. */
  function CurrentValue(norm: Norm, current: seq<Var>, key: Wide): Option<Wide> {
    if current == [] then None
    else
      var later := CurrentValue(norm, current[1..], key);
      if later.Some? then later
      else if norm(current[0].name) == key then Some(current[0].value) else None
  }

  function Removals(norm: Norm, current: seq<Var>, keys: set<Wide>): seq<Wide> {
    if current == [] then []
    else
      (if MayTouch(norm, current[0].name) && norm(current[0].name) !in keys then [current[0].name] else [])
      + Removals(norm, current[1..], keys)
  }

  predicate Usable(norm: Norm, e: Var) { MayTouch(norm, e.name) && NUL !in e.value }

  function Sets(norm: Norm, current: seq<Var>, incoming: seq<Var>, seen: set<Wide>): seq<Var> {
    if incoming == [] then []
    else
      var e, rest := incoming[0], incoming[1..];
      var key := norm(e.name);
      if !Usable(norm, e) || key in seen then Sets(norm, current, rest, seen)
      else
        (if CurrentValue(norm, current, key) == Some(e.value) then [] else [e])
        + Sets(norm, current, rest, seen + {key})
  }

  function Plan(norm: Norm, current: seq<Var>, incoming: seq<Var>): EnvPlan {
    if !IsSane(norm, incoming) then NO_PLAN
    else EnvPlan(Sets(norm, current, incoming, {}), Removals(norm, current, Keys(norm, incoming)))
  }

  lemma RemovalsUnfold(norm: Norm, current: seq<Var>, i: nat, keys: set<Wide>)
    requires i < |current|
    ensures Removals(norm, current[i..], keys) ==
              (if MayTouch(norm, current[i].name) && norm(current[i].name) !in keys then [current[i].name] else [])
              + Removals(norm, current[i + 1..], keys)
  {
    hide MayTouch;
    assert current[i..][0] == current[i] && current[i..][1..] == current[i + 1..];
  }

  lemma SetsUnfold(norm: Norm, current: seq<Var>, incoming: seq<Var>, i: nat, seen: set<Wide>)
    requires i < |incoming|
    ensures var e := incoming[i];
            var key := norm(e.name);
            Sets(norm, current, incoming[i..], seen) ==
              if !Usable(norm, e) || key in seen then Sets(norm, current, incoming[i + 1..], seen)
              else (if CurrentValue(norm, current, key) == Some(e.value) then [] else [e])
                   + Sets(norm, current, incoming[i + 1..], seen + {key})
  {
    hide Usable, CurrentValue;
    assert incoming[i..][0] == incoming[i] && incoming[i..][1..] == incoming[i + 1..];
  }

  lemma NothingLeft(norm: Norm, current: seq<Var>, keys: set<Wide>)
    ensures Removals(norm, [], keys) == [] && Sets(norm, current, [], keys) == []
  {}

  /** `plan_adoption`. */
  method PlanAdoption(norm: Norm, current: seq<Var>, incoming: seq<Var>) returns (plan: EnvPlan)
    ensures plan == Plan(norm, current, incoming)
  {
    hide MayTouch, Usable, IsSane, Sets, Removals, CurrentValue, Keys;
    plan := NO_PLAN;
    if !IsSane(norm, incoming) { return; }
    var keys := Keys(norm, incoming);
    assert current[0..] == current && incoming[0..] == incoming;
    var remove: seq<Wide> := [];
    for i := 0 to |current|
      invariant remove + Removals(norm, current[i..], keys) == Removals(norm, current, keys)
    {
      RemovalsUnfold(norm, current, i, keys);
      if MayTouch(norm, current[i].name) {
        if norm(current[i].name) !in keys { remove := remove + [current[i].name]; }
      }
    }
    var seen: set<Wide> := {};
    var sets: seq<Var> := [];
    for i := 0 to |incoming|
      invariant sets + Sets(norm, current, incoming[i..], seen) == Sets(norm, current, incoming, {})
    {
      SetsUnfold(norm, current, incoming, i, seen);
      var e := incoming[i];
      if !Usable(norm, e) { continue; }
      var key := norm(e.name);
      if key in seen { continue; }
      seen := seen + {key};
      if CurrentValue(norm, current, key) == Some(e.value) { continue; }
      sets := sets + [e];
    }
    assert current[|current|..] == [] && incoming[|incoming|..] == [];
    NothingLeft(norm, current, keys);
    NothingLeft(norm, current, seen);
    plan := EnvPlan(sets, remove);
  }

  // ----- applying it -----

  /** A process environment: one value per name, where `sys` gives the
      operating system's own view of which spellings are one name. */
  type Environment = map<Wide, Wide>

  function AfterRemovals(sys: Norm, env: Environment, names: seq<Wide>): Environment
    decreases |names|
  {
    if names == [] then env else AfterRemovals(sys, env - {sys(names[0])}, names[1..])
  }

  function AfterSets(sys: Norm, env: Environment, vars: seq<Var>): Environment
    decreases |vars|
  {
    if vars == [] then env else AfterSets(sys, env[sys(vars[0].name) := vars[0].value], vars[1..])
  }

  function Applied(sys: Norm, env: Environment, plan: EnvPlan): Environment {
    AfterSets(sys, AfterRemovals(sys, env, plan.remove), plan.set_)
  }

  class Process {
    var env: Environment

    /** `apply_plan`. */
    method ApplyPlan(sys: Norm, plan: EnvPlan)
      modifies this
      ensures env == Applied(sys, old(env), plan)
    {
      assert plan.remove[0..] == plan.remove && plan.set_[0..] == plan.set_;
      for i := 0 to |plan.remove|
        invariant AfterRemovals(sys, env, plan.remove[i..]) == AfterRemovals(sys, old(env), plan.remove)
      {
        assert plan.remove[i..][1..] == plan.remove[i + 1..];
        env := env - {sys(plan.remove[i])};
      }
      for i := 0 to |plan.set_|
        invariant AfterSets(sys, env, plan.set_[i..]) == Applied(sys, old(env), plan)
      {
        assert plan.set_[i..][1..] == plan.set_[i + 1..];
        env := env[sys(plan.set_[i].name) := plan.set_[i].value];
      }
    }
  }

  /** `list` is what the operating system hands out for `env`. */
  ghost predicate Lists(sys: Norm, list: seq<Var>, env: Environment) {
    && Keys(sys, list) == env.Keys
    && forall key <- env :: CurrentValue(sys, list, key) == Some(env[key])
  }

  function Lookup(env: Environment, key: Wide): Option<Wide> {
    if key in env then Some(env[key]) else None
  }

  function NamesOf(vars: seq<Var>): set<Wide> { set v | v in vars :: v.name }

  /** Of these names, the key the plan uses tells apart the same ones as the operating
      system. */
  ghost predicate SameNames(norm: Norm, sys: Norm, names: set<Wide>) {
    forall a, b :: a in names && b in names ==> (norm(a) == norm(b) <==> sys(a) == sys(b))
  }

  lemma SameNamesAmong(norm: Norm, sys: Norm, names: set<Wide>, some: set<Wide>)
    requires SameNames(norm, sys, names) && some <= names
    ensures SameNames(norm, sys, some)
  {}

  lemma NamesSplit(vars: seq<Var>)
    requires vars != []
    ensures vars[0].name in NamesOf(vars) && NamesOf(vars[1..]) <= NamesOf(vars)
  {
    assert vars[0] in vars && forall v :: v in vars[1..] ==> v in vars;
  }

  lemma {:induction false} ListedAlike(norm: Norm, sys: Norm, list: seq<Var>, name: Wide)
    requires SameNames(norm, sys, NamesOf(list) + {name})
    ensures CurrentValue(norm, list, norm(name)) == CurrentValue(sys, list, sys(name))
    ensures norm(name) in Keys(norm, list) <==> sys(name) in Keys(sys, list)
  {
    if list != [] {
      NamesSplit(list);
      assert norm(list[0].name) == norm(name) <==> sys(list[0].name) == sys(name);
      SameNamesAmong(norm, sys, NamesOf(list) + {name}, NamesOf(list[1..]) + {name});
      ListedAlike(norm, sys, list[1..], name);
    }
  }

  /** The first entry for a key that the plan may use. */
  function FirstUsable(norm: Norm, incoming: seq<Var>, key: Wide): Option<Wide> {
    if incoming == [] then None
    else if norm(incoming[0].name) == key && Usable(norm, incoming[0]) then Some(incoming[0].value)
    else FirstUsable(norm, incoming[1..], key)
  }

  lemma {:induction false} SetsEffect(norm: Norm, sys: Norm, current: seq<Var>, incoming: seq<Var>, seen: set<Wide>,
                                      env: Environment, name: Wide)
    requires SameNames(norm, sys, NamesOf(incoming) + {name})
    requires var key := norm(name);
             key !in seen && CurrentValue(norm, current, key).Some? && FirstUsable(norm, incoming, key).Some? ==>
               Lookup(env, sys(name)) == CurrentValue(norm, current, key)
    ensures var key := norm(name);
            Lookup(AfterSets(sys, env, Sets(norm, current, incoming, seen)), sys(name)) ==
              if key in seen || FirstUsable(norm, incoming, key).None? then Lookup(env, sys(name))
              else FirstUsable(norm, incoming, key)
    decreases |incoming|
  {
    hide Usable;
    if incoming != [] {
      var e, rest := incoming[0], incoming[1..];
      var k := norm(e.name);
      NamesSplit(incoming);
      assert k == norm(name) <==> sys(e.name) == sys(name);
      SameNamesAmong(norm, sys, NamesOf(incoming) + {name}, NamesOf(rest) + {name});
      hide SameNames, NamesOf;
      if !Usable(norm, e) || k in seen {
        SetsEffect(norm, sys, current, rest, seen, env, name);
      } else if CurrentValue(norm, current, k) == Some(e.value) {
        SetsEffect(norm, sys, current, rest, seen + {k}, env, name);
        assert Sets(norm, current, incoming, seen) == Sets(norm, current, rest, seen + {k});
      } else {
        var next := env[sys(e.name) := e.value];
        SetsEffect(norm, sys, current, rest, seen + {k}, next, name);
        var sets := Sets(norm, current, incoming, seen);
        assert sets[0] == e && sets[1..] == Sets(norm, current, rest, seen + {k});
      }
    }
  }

  lemma {:induction false} RemovalsEffect(norm: Norm, sys: Norm, current: seq<Var>, keys: set<Wide>,
                                          env: Environment, name: Wide)
    requires SameNames(norm, sys, NamesOf(current) + {name})
    ensures var key := norm(name);
            Lookup(AfterRemovals(sys, env, Removals(norm, current, keys)), sys(name)) ==
              if key !in keys && Removable(norm, current, key) then None else Lookup(env, sys(name))
    decreases |current|
  {
    hide MayTouch;
    if current != [] {
      var first := current[0].name;
      var removals := Removals(norm, current, keys);
      NamesSplit(current);
      assert norm(first) == norm(name) <==> sys(first) == sys(name);
      SameNamesAmong(norm, sys, NamesOf(current) + {name}, NamesOf(current[1..]) + {name});
      hide SameNames, NamesOf;
      if MayTouch(norm, first) && norm(first) !in keys {
        RemovalsEffect(norm, sys, current[1..], keys, env - {sys(first)}, name);
        assert removals[0] == first && removals[1..] == Removals(norm, current[1..], keys);
      } else {
        RemovalsEffect(norm, sys, current[1..], keys, env, name);
        assert removals == Removals(norm, current[1..], keys);
      }
    }
  }

  /** Some entry of the list has this key and may be touched. */
  predicate Removable(norm: Norm, current: seq<Var>, key: Wide) {
    && current != []
    && ((norm(current[0].name) == key && MayTouch(norm, current[0].name)) || Removable(norm, current[1..], key))
  }

  lemma {:induction false} RemovableMeans(norm: Norm, current: seq<Var>, name: Wide)
    requires KeepsSettable(norm)
    ensures Removable(norm, current, norm(name)) <==> norm(name) in Keys(norm, current) && MayTouch(norm, name)
  {
    if current != [] {
      RemovableMeans(norm, current[1..], name);
      assert norm(current[0].name) == norm(name) ==> IsSettable(current[0].name) == IsSettable(name);
    }
  }

  lemma {:induction false} CurrentValueOfKey(norm: Norm, current: seq<Var>, key: Wide)
    ensures CurrentValue(norm, current, key).Some? <==> key in Keys(norm, current)
  {
    if current != [] { CurrentValueOfKey(norm, current[1..], key); }
  }

  lemma {:induction false} FirstUsableMeans(norm: Norm, incoming: seq<Var>, name: Wide)
    requires KeepsSettable(norm)
    ensures FirstUsable(norm, incoming, norm(name)).Some? ==> norm(name) in Keys(norm, incoming) && MayTouch(norm, name)
  {
    if incoming != [] {
      FirstUsableMeans(norm, incoming[1..], name);
      assert norm(incoming[0].name) == norm(name) ==> IsSettable(incoming[0].name) == IsSettable(name);
    }
  }

  /** After adoption a variable the plan may touch has the client's first usable
      value; a variable the client lacks is gone; everything else is untouched. */
  lemma AdoptionEffect(norm: Norm, sys: Norm, current: seq<Var>, env: Environment, incoming: seq<Var>, name: Wide)
    requires KeepsSettable(norm) && Lists(sys, current, env) && IsSane(norm, incoming)
    requires SameNames(norm, sys, NamesOf(current) + NamesOf(incoming) + {name})
    ensures var key := norm(name);
            Lookup(Applied(sys, env, Plan(norm, current, incoming)), sys(name)) ==
              if FirstUsable(norm, incoming, key).Some? then FirstUsable(norm, incoming, key)
              else if MayTouch(norm, name) && key !in Keys(norm, incoming) then None
              else Lookup(env, sys(name))
  {
    hide Usable, MayTouch, IsSane, KeepsSettable, SameNames, NamesOf, Sets, Removals;
    var key, keys := norm(name), Keys(norm, incoming);
    var names := NamesOf(current) + NamesOf(incoming) + {name};
    SameNamesAmong(norm, sys, names, NamesOf(current) + {name});
    SameNamesAmong(norm, sys, names, NamesOf(incoming) + {name});
    var cleared := AfterRemovals(sys, env, Removals(norm, current, keys));
    CurrentValueOfKey(norm, current, key);
    ListedAlike(norm, sys, current, name);
    RemovableMeans(norm, current, name);
    FirstUsableMeans(norm, incoming, name);
    RemovalsEffect(norm, sys, current, keys, env, name);
    SetsEffect(norm, sys, current, incoming, {}, cleared, name);
  }

  /** An unusable payload changes nothing. */
  lemma InsaneChangesNothing(norm: Norm, sys: Norm, current: seq<Var>, env: Environment, incoming: seq<Var>)
    requires !IsSane(norm, incoming)
    ensures Applied(sys, env, Plan(norm, current, incoming)) == env
  {}

  // ----- the guards, written out -----

  /** `PSMUX_DATA_DIR` and `PSMUX_TARGET_SESSION` in 16-bit units. */
  const DATA_DIR: Wide := [80, 83, 77, 85, 88, 95, 68, 65, 84, 65, 95, 68, 73, 82]
  const TARGET_SESSION: Wide :=
    [80, 83, 77, 85, 88, 95, 84, 65, 82, 71, 69, 84, 95, 83, 69, 83, 83, 73, 79, 78]

  /** The server keeps its own value of exactly these two. */
  lemma OwnedExactlyWhen(norm: Norm, name: Wide)
    ensures IsServerOwned(norm, name) <==> norm(name) == DATA_DIR || norm(name) == TARGET_SESSION
  {
    assert WideOf("PSMUX_DATA_DIR") == DATA_DIR;
    assert WideOf("PSMUX_TARGET_SESSION") == TARGET_SESSION;
  }

  /** Whatever the client sends, they keep their values. */
  lemma OwnedStay(norm: Norm, sys: Norm, current: seq<Var>, env: Environment, incoming: seq<Var>, name: Wide)
    requires KeepsSettable(norm) && Lists(sys, current, env)
    requires SameNames(norm, sys, NamesOf(current) + NamesOf(incoming) + {name})
    requires norm(name) == DATA_DIR || norm(name) == TARGET_SESSION
    ensures Lookup(Applied(sys, env, Plan(norm, current, incoming)), sys(name)) == Lookup(env, sys(name))
  {
    hide Lookup, Applied, Plan, IsSane, FirstUsable, Keys, SameNames, NamesOf, KeepsSettable, Lists;
    OwnedExactlyWhen(norm, name);
    if IsSane(norm, incoming) {
      AdoptionEffect(norm, sys, current, env, incoming, name);
      FirstUsableMeans(norm, incoming, name);
    } else {
      InsaneChangesNothing(norm, sys, current, env, incoming);
    }
  }

  lemma {:induction false} SetsAreUsable(norm: Norm, current: seq<Var>, incoming: seq<Var>, seen: set<Wide>)
    ensures forall v <- Sets(norm, current, incoming, seen) :: v in incoming && Usable(norm, v)
    decreases |incoming|
  {
    hide Usable;
    if incoming != [] {
      assert incoming[0] in incoming && forall v :: v in incoming[1..] ==> v in incoming;
      SetsAreUsable(norm, current, incoming[1..], seen);
      SetsAreUsable(norm, current, incoming[1..], seen + {norm(incoming[0].name)});
    }
  }

  lemma {:induction false} RemovalsMayBeTouched(norm: Norm, current: seq<Var>, keys: set<Wide>)
    ensures forall name <- Removals(norm, current, keys) :: name in NamesOf(current) && MayTouch(norm, name)
  {
    hide MayTouch;
    if current != [] {
      NamesSplit(current);
      RemovalsMayBeTouched(norm, current[1..], keys);
    }
  }

  /** A name the environment calls take, and neither of the two the server owns. */
  ghost predicate Harmless(norm: Norm, name: Wide) {
    name != [] && 61 !in name && 0 !in name && norm(name) != DATA_DIR && norm(name) != TARGET_SESSION
  }

  /** Whatever was read, a plan removes only names of the server and sets only entries of
      the payload, and hands the environment calls nothing that they refuse: no empty
      name, no `=` in one, no NUL in a name or a value. */
  lemma PlanIsHarmless(norm: Norm, current: seq<Var>, incoming: seq<Var>)
    ensures var plan := Plan(norm, current, incoming);
            && (forall v <- plan.set_ :: v in incoming && Harmless(norm, v.name) && 0 !in v.value)
            && (forall name <- plan.remove :: name in NamesOf(current) && Harmless(norm, name))
  {
    hide Sets, Removals, Keys, ServerOwnedKey;
    SetsAreUsable(norm, current, incoming, {});
    RemovalsMayBeTouched(norm, current, Keys(norm, incoming));
    forall name ensures IsServerOwned(norm, name) <==> norm(name) == DATA_DIR || norm(name) == TARGET_SESSION {
      OwnedExactlyWhen(norm, name);
    }
  }

  /** A payload counts when it has four entries and one of them is a `PATH` with a value. */
  lemma SaneExactlyWhen(norm: Norm, entries: seq<Var>)
    ensures IsSane(norm, entries) <==>
              && 4 <= |entries|
              && exists i :: 0 <= i < |entries| && norm(entries[i].name) == [80, 65, 84, 72] && |entries[i].value| > 0
  {
    assert WideOf("PATH") == [80, 65, 84, 72];
  }

  /** Three entries are too few, and so are four with an empty `PATH` or none. */
  lemma SaneExamples(path: Wide)
    requires path != []
    ensures var (p, a, b, c) := ([80, 65, 84, 72], Var([65], [49]), Var([66], [50]), Var([67], []));
            && IsSane(AsciiUpper, [a, b, Var(p, path), c])
            && IsSane(AsciiUpper, [Var([112, 97, 116, 104], path), a, b, c])
            && !IsSane(AsciiUpper, [Var(p, path), a, b]) && !IsSane(AsciiUpper, [Var(p, []), a, b, c])
            && !IsSane(AsciiUpper, [Var([80, 65, 84, 72, 83], path), a, b, c])
  {
    hide IsSane, AsciiUpper;
    var (p, a, b, c) := ([80, 65, 84, 72], Var([65], [49]), Var([66], [50]), Var([67], []));
    var (low, paths) := ([112, 97, 116, 104], [80, 65, 84, 72, 83]);
    PathUpper();
    SaneExactlyWhen(AsciiUpper, [a, b, Var(p, path), c]);
    assert [a, b, Var(p, path), c][2] == Var(p, path);
    SaneExactlyWhen(AsciiUpper, [Var(low, path), a, b, c]);
    assert [Var(low, path), a, b, c][0] == Var(low, path);
    SaneExactlyWhen(AsciiUpper, [Var(p, path), a, b]);
    SaneExactlyWhen(AsciiUpper, [Var(p, []), a, b, c]);
    SaneExactlyWhen(AsciiUpper, [Var(paths, path), a, b, c]);
  }

  lemma PathUpper()
    ensures AsciiUpper([80, 65, 84, 72]) == AsciiUpper([112, 97, 116, 104]) == [80, 65, 84, 72]
    ensures AsciiUpper([80, 65, 84, 72, 83]) == [80, 65, 84, 72, 83]
    ensures AsciiUpper([65]) == [65] && AsciiUpper([66]) == [66] && AsciiUpper([67]) == [67]
  {
    assert AsciiUpper([72]) == [72] == AsciiUpper([104]) && AsciiUpper([72, 83]) == [72, 83];
    assert AsciiUpper([84, 72]) == [84, 72] == AsciiUpper([116, 104]) && AsciiUpper([84, 72, 83]) == [84, 72, 83];
    assert AsciiUpper([65, 84, 72]) == [65, 84, 72] == AsciiUpper([97, 116, 104]);
    assert AsciiUpper([65, 84, 72, 83]) == [65, 84, 72, 83];
  }

  // ----- when the key merges names -----

  /** No two usable entries have the same name, in the sense of `key`. */
  ghost predicate Apart(norm: Norm, key: Norm, vars: seq<Var>) {
    forall i, j :: 0 <= i < j < |vars| && Usable(norm, vars[i]) && Usable(norm, vars[j]) ==>
      key(vars[i].name) != key(vars[j].name)
  }

  /** An earlier usable entry has the key of entry `i`. */
  ghost predicate Shadowed(norm: Norm, vars: seq<Var>, i: nat)
    requires i < |vars|
  {
    exists j :: 0 <= j < i && Usable(norm, vars[j]) && norm(vars[j].name) == norm(vars[i].name)
  }

  /** Onto an empty server an entry is adopted unless its key has been seen. */
  lemma {:induction false} AdoptedUnlessSeen(norm: Norm, sys: Norm, incoming: seq<Var>, seen: set<Wide>,
                                             env: Environment, i: nat)
    requires Apart(norm, sys, incoming) && i < |incoming| && Usable(norm, incoming[i])
    ensures Lookup(AfterSets(sys, env, Sets(norm, [], incoming, seen)), sys(incoming[i].name)) ==
              if norm(incoming[i].name) in seen || Shadowed(norm, incoming, i) then Lookup(env, sys(incoming[i].name))
              else Some(incoming[i].value)
    decreases |incoming|
  {
    hide Usable;
    var e, rest := incoming[0], incoming[1..];
    var k, target := norm(e.name), sys(incoming[i].name);
    var taken := Usable(norm, e) && k !in seen;
    var more := Sets(norm, [], rest, if taken then seen + {k} else seen);
    var env1 := if taken then env[sys(e.name) := e.value] else env;
    assert AfterSets(sys, env, Sets(norm, [], incoming, seen)) == AfterSets(sys, env1, more) by {
      if taken {
        var sets := Sets(norm, [], incoming, seen);
        assert sets[0] == e && sets[1..] == more;
      }
    }
    if i == 0 {
      SetsAreUsable(norm, [], rest, if taken then seen + {k} else seen);
      forall v | v in more ensures sys(v.name) != target {
        var j :| 0 <= j < |rest| && rest[j] == v;
        assert v == incoming[j + 1];
      }
      NotSet(sys, env1, more, target);
    } else {
      assert rest[i - 1] == incoming[i];
      ApartAfter(norm, sys, incoming);
      ShadowedAfter(norm, incoming, i);
      AdoptedUnlessSeen(norm, sys, rest, if taken then seen + {k} else seen, env1, i - 1);
      assert taken ==> sys(e.name) != target;
    }
  }

  lemma ApartAfter(norm: Norm, key: Norm, vars: seq<Var>)
    requires vars != [] && Apart(norm, key, vars)
    ensures Apart(norm, key, vars[1..])
  {
    hide Usable;
    forall i, j | 0 <= i < j < |vars| - 1 && Usable(norm, vars[1..][i]) && Usable(norm, vars[1..][j])
      ensures key(vars[1..][i].name) != key(vars[1..][j].name)
    {
      assert vars[1..][i] == vars[i + 1] && vars[1..][j] == vars[j + 1];
    }
  }

  lemma ShadowedAfter(norm: Norm, vars: seq<Var>, i: nat)
    requires 0 < i < |vars|
    ensures Shadowed(norm, vars, i) <==>
              (Usable(norm, vars[0]) && norm(vars[0].name) == norm(vars[i].name)) || Shadowed(norm, vars[1..], i - 1)
  {
    hide Usable;
    var rest := vars[1..];
    assert rest[i - 1] == vars[i];
    if Shadowed(norm, vars, i) {
      var j :| 0 <= j < i && Usable(norm, vars[j]) && norm(vars[j].name) == norm(vars[i].name);
      if j > 0 { assert rest[j - 1] == vars[j]; }
    }
    if Shadowed(norm, rest, i - 1) {
      var j :| 0 <= j < i - 1 && Usable(norm, rest[j]) && norm(rest[j].name) == norm(rest[i - 1].name);
      assert rest[j] == vars[j + 1];
    }
  }

  /** A client whose usable names the operating system keeps apart is adopted whole by an
      empty server exactly when the key keeps them apart too; an entry is lost exactly
      when an earlier one has its key. */
  lemma AdoptedExactlyWhenApart(norm: Norm, sys: Norm, client: seq<Var>)
    requires IsSane(norm, client) && Apart(norm, sys, client)
    ensures var after := Applied(sys, map[], Plan(norm, [], client));
            && (forall i :: 0 <= i < |client| && Usable(norm, client[i]) ==>
                  Lookup(after, sys(client[i].name)) ==
                    if Shadowed(norm, client, i) then None else Some(client[i].value))
            && ((forall i :: 0 <= i < |client| && Usable(norm, client[i]) ==>
                   Lookup(after, sys(client[i].name)) == Some(client[i].value))
                <==> Apart(norm, norm, client))
  {
    hide Usable, IsSane, Sets, AfterSets, Keys;
    NothingLeft(norm, [], Keys(norm, client));
    forall i | 0 <= i < |client| && Usable(norm, client[i])
      ensures Lookup(AfterSets(sys, map[], Sets(norm, [], client, {})), sys(client[i].name)) ==
                if Shadowed(norm, client, i) then None else Some(client[i].value)
    {
      AdoptedUnlessSeen(norm, sys, client, {}, map[], i);
    }
    if !Apart(norm, norm, client) {
      var i, j :| 0 <= i < j < |client| && Usable(norm, client[i]) && Usable(norm, client[j])
                  && norm(client[i].name) == norm(client[j].name);
      assert Shadowed(norm, client, j);
    }
  }

  /** Upper-casing as Rust does it, for ASCII and the sharp s: one unit becomes two. */
  function SharpUpper(w: Wide): Wide {
    if w == [] then [] else (if w[0] == 223 then [83, 83] else [UpperUnit(w[0])]) + SharpUpper(w[1..])
  }

  /** A client with `PATH`, `TMP` and two variables named by a sharp s and by `SS`, which
      an operating system that upper-cases single characters keeps apart: the second of
      these is lost. */
  lemma SharpSHidesSS(path: Wide, tmp: Wide, one: Wide, two: Wide)
    requires path != [] && NUL !in path && NUL !in tmp && NUL !in one && NUL !in two
    ensures var client := [Var(WideOf("PATH"), path), Var(WideOf("TMP"), tmp), Var([223], one), Var([83, 83], two)];
            var after := Applied(AsciiUpper, map[], Plan(SharpUpper, [], client));
            && IsSane(SharpUpper, client)
            && Lookup(after, AsciiUpper([223])) == Some(one) && Lookup(after, AsciiUpper([83, 83])) == None
  {
    hide Applied, Plan, AsciiUpper, SharpUpper, MayTouch;
    var client := [Var(WideOf("PATH"), path), Var(WideOf("TMP"), tmp), Var([223], one), Var([83, 83], two)];
    SharpNames();
    assert client[0] in client;
    assert forall i :: 0 <= i < |client| ==> Usable(SharpUpper, client[i]);
    assert Apart(SharpUpper, AsciiUpper, client);
    AdoptedExactlyWhenApart(SharpUpper, AsciiUpper, client);
    assert !Shadowed(SharpUpper, client, 2);
    assert Shadowed(SharpUpper, client, 3) by {
      assert SharpUpper(client[2].name) == SharpUpper(client[3].name);
    }
    assert Lookup(Applied(AsciiUpper, map[], Plan(SharpUpper, [], client)), AsciiUpper(client[2].name)) == Some(one);
    assert Lookup(Applied(AsciiUpper, map[], Plan(SharpUpper, [], client)), AsciiUpper(client[3].name)) == None;
  }

  lemma SharpNames()
    ensures SharpUpper(WideOf("PATH")) == AsciiUpper(WideOf("PATH")) == WideOf("PATH")
    ensures SharpUpper(WideOf("TMP")) == AsciiUpper(WideOf("TMP")) == WideOf("TMP")
    ensures SharpUpper([223]) == SharpUpper([83, 83]) == AsciiUpper([83, 83]) == [83, 83] && AsciiUpper([223]) == [223]
    ensures MayTouch(SharpUpper, WideOf("PATH")) && MayTouch(SharpUpper, WideOf("TMP"))
    ensures MayTouch(SharpUpper, [223]) && MayTouch(SharpUpper, [83, 83])
    ensures |WideOf("PATH")| == 4 && |WideOf("TMP")| == 3
  {
    assert WideOf("PATH") == [80, 65, 84, 72] && WideOf("TMP") == [84, 77, 80];
    UpperUnfolds(80, [65, 84, 72]);
    UpperUnfolds(65, [84, 72]);
    UpperUnfolds(84, [72]);
    UpperUnfolds(72, []);
    UpperUnfolds(84, [77, 80]);
    UpperUnfolds(77, [80]);
    UpperUnfolds(80, []);
    UpperUnfolds(83, [83]);
    UpperUnfolds(83, []);
    UpperUnfolds(223, []);
    assert |WideOf("PSMUX_DATA_DIR")| == 14 && |WideOf("PSMUX_TARGET_SESSION")| == 20;
  }

  lemma UpperUnfolds(u: U16, rest: Wide)
    ensures SharpUpper([u] + rest) == (if u == 223 then [83, 83] else [UpperUnit(u)]) + SharpUpper(rest)
    ensures AsciiUpper([u] + rest) == [UpperUnit(u)] + AsciiUpper(rest)
    ensures SharpUpper([]) == [] && AsciiUpper([]) == []
  {
    hide UpperUnit;
    assert ([u] + rest)[1..] == rest;
  }

  lemma {:induction false} NotSet(sys: Norm, env: Environment, vars: seq<Var>, key: Wide)
    requires forall v <- vars :: sys(v.name) != key
    ensures Lookup(AfterSets(sys, env, vars), key) == Lookup(env, key)
    decreases |vars|
  {
    if vars != [] {
      assert vars[0] in vars;
      NotSet(sys, env[sys(vars[0].name) := vars[0].value], vars[1..], key);
    }
  }

  // ----- a second adoption -----

  lemma {:induction false} NothingToSet(norm: Norm, current: seq<Var>, incoming: seq<Var>, seen: set<Wide>)
    requires forall key :: key !in seen && FirstUsable(norm, incoming, key).Some? ==>
               CurrentValue(norm, current, key) == FirstUsable(norm, incoming, key)
    ensures Sets(norm, current, incoming, seen) == []
    decreases |incoming|
  {
    hide Usable;
    if incoming != [] {
      var e, rest := incoming[0], incoming[1..];
      var k := norm(e.name);
      if !Usable(norm, e) || k in seen {
        forall key | key !in seen && FirstUsable(norm, rest, key).Some?
          ensures CurrentValue(norm, current, key) == FirstUsable(norm, rest, key)
        {
          assert FirstUsable(norm, incoming, key) == FirstUsable(norm, rest, key);
        }
        NothingToSet(norm, current, rest, seen);
      } else {
        assert FirstUsable(norm, incoming, k) == Some(e.value);
        forall key | key !in seen + {k} && FirstUsable(norm, rest, key).Some?
          ensures CurrentValue(norm, current, key) == FirstUsable(norm, rest, key)
        {
          assert FirstUsable(norm, incoming, key) == FirstUsable(norm, rest, key);
        }
        NothingToSet(norm, current, rest, seen + {k});
      }
    }
  }

  lemma {:induction false} NothingToRemove(norm: Norm, current: seq<Var>, keys: set<Wide>)
    requires forall v <- current :: MayTouch(norm, v.name) ==> norm(v.name) in keys
    ensures Removals(norm, current, keys) == []
  {
    hide MayTouch;
    if current != [] {
      assert current[0] in current;
      NothingToRemove(norm, current[1..], keys);
    }
  }

  lemma {:induction false} KeyOfMember(norm: Norm, vars: seq<Var>, v: Var)
    requires v in vars
    ensures norm(v.name) in Keys(norm, vars)
  {
    if v != vars[0] { KeyOfMember(norm, vars[1..], v); }
  }

  lemma {:induction false} UsableHasName(norm: Norm, incoming: seq<Var>, key: Wide) returns (name: Wide)
    requires FirstUsable(norm, incoming, key).Some?
    ensures norm(name) == key && name in NamesOf(incoming)
  {
    NamesSplit(incoming);
    if norm(incoming[0].name) == key && Usable(norm, incoming[0]) {
      name := incoming[0].name;
    } else {
      name := UsableHasName(norm, incoming[1..], key);
    }
  }

  /** Adopting the same environment a second time plans nothing. */
  lemma SecondPlanIsEmpty(norm: Norm, sys: Norm, current: seq<Var>, env: Environment,
                          incoming: seq<Var>, again: seq<Var>)
    requires KeepsSettable(norm) && Lists(sys, current, env)
    requires Lists(sys, again, Applied(sys, env, Plan(norm, current, incoming)))
    requires SameNames(norm, sys, NamesOf(current) + NamesOf(incoming) + NamesOf(again))
    ensures Plan(norm, again, incoming) == NO_PLAN
  {
    hide Usable, MayTouch, IsSane, KeepsSettable, SameNames;
    if IsSane(norm, incoming) {
      hide Plan;
      var names := NamesOf(current) + NamesOf(incoming) + NamesOf(again);
      var after := Applied(sys, env, Plan(norm, current, incoming));
      forall key | key !in {} && FirstUsable(norm, incoming, key).Some?
        ensures CurrentValue(norm, again, key) == FirstUsable(norm, incoming, key)
      {
        var name := UsableHasName(norm, incoming, key);
        SameNamesAmong(norm, sys, names, NamesOf(current) + NamesOf(incoming) + {name});
        SameNamesAmong(norm, sys, names, NamesOf(again) + {name});
        AdoptionEffect(norm, sys, current, env, incoming, name);
        ListedAlike(norm, sys, again, name);
        assert Lookup(after, sys(name)).Some? && sys(name) in after;
      }
      NothingToSet(norm, again, incoming, {});
      forall v | v in again && MayTouch(norm, v.name) ensures norm(v.name) in Keys(norm, incoming) {
        KeyOfMember(norm, again, v);
        SameNamesAmong(norm, sys, names, NamesOf(current) + NamesOf(incoming) + {v.name});
        SameNamesAmong(norm, sys, names, NamesOf(again) + {v.name});
        ListedAlike(norm, sys, again, v.name);
        FirstUsableMeans(norm, incoming, v.name);
        AdoptionEffect(norm, sys, current, env, incoming, v.name);
      }
      NothingToRemove(norm, again, Keys(norm, incoming));
      PlanIs(norm, again, incoming);
    }
  }

  lemma PlanIs(norm: Norm, current: seq<Var>, incoming: seq<Var>)
    requires IsSane(norm, incoming)
    ensures Plan(norm, current, incoming)
         == EnvPlan(Sets(norm, current, incoming, {}), Removals(norm, current, Keys(norm, incoming)))
  {}

  // ----- end to end -----

  /** A value the operating system stores holds no NUL. */
  ghost predicate Storable(vars: seq<Var>) { forall v <- vars :: NUL !in v.value }

  lemma {:induction false} SentFirst(norm: Norm, vars: seq<Var>, key: Wide)
    requires Storable(vars)
    ensures FirstUsable(norm, Sent(vars), key) == FirstUsable(norm, vars, key)
  {
    hide UpToNul;
    if vars != [] {
      assert vars[0] in vars && forall v :: v in vars[1..] ==> v in vars;
      SentFirst(norm, vars[1..], key);
      SentStep(vars);
      assert Usable(norm, vars[0]) ==> Encodable(vars[0].name);
      if Encodable(vars[0].name) {
        assert Sent(vars)[0] == vars[0] && Sent(vars)[1..] == Sent(vars[1..]);
      } else {
        assert Sent(vars) == Sent(vars[1..]);
      }
    }
  }

  lemma SentStep(vars: seq<Var>)
    requires vars != [] && NUL !in vars[0].value
    ensures Sent(vars) == (if Encodable(vars[0].name) then [vars[0]] else []) + Sent(vars[1..])
  {}

  lemma {:induction false} SentNames(vars: seq<Var>)
    ensures NamesOf(Sent(vars)) <= NamesOf(vars)
  {
    hide Encodable, UpToNul;
    if vars != [] {
      SentNames(vars[1..]);
      NamesSplit(vars);
    }
  }

  lemma {:induction false} SentKeys(norm: Norm, vars: seq<Var>, name: Wide)
    requires KeepsSettable(norm) && Storable(vars) && IsSettable(name)
    ensures norm(name) in Keys(norm, Sent(vars)) <==> norm(name) in Keys(norm, vars)
  {
    hide UpToNul;
    if vars != [] {
      assert vars[0] in vars && forall v :: v in vars[1..] ==> v in vars;
      SentKeys(norm, vars[1..], name);
      SentStep(vars);
      assert norm(vars[0].name) == norm(name) ==> IsSettable(vars[0].name);
      assert IsSettable(vars[0].name) ==> Encodable(vars[0].name);
      if Encodable(vars[0].name) {
        assert Sent(vars)[0] == vars[0] && Sent(vars)[1..] == Sent(vars[1..]);
      } else {
        assert Sent(vars) == Sent(vars[1..]);
      }
    }
  }

  /** A client's environment, encoded, decoded and adopted: every variable the
      server may touch ends with the client's value, or absent if the client
      lacks it, and every other variable keeps the server's value. */
  lemma AdoptionEndToEnd(norm: Norm, sys: Norm, server: seq<Var>, env: Environment, client: seq<Var>, name: Wide)
    requires KeepsSettable(norm) && Lists(sys, server, env)
    requires SameNames(norm, sys, NamesOf(server) + NamesOf(client) + {name})
    requires PlainNames(client) && Storable(client) && IsSane(norm, Sent(client))
    ensures Decode(Encode(client)) == Some(Sent(client))
    ensures var after := Applied(sys, env, Plan(norm, server, Sent(client)));
            Lookup(after, sys(name)) ==
              if MayTouch(norm, name) then FirstUsable(norm, client, norm(name)) else Lookup(env, sys(name))
  {
    hide Encode, Decode, Sent, Plan, Applied, MayTouch, FirstUsable, IsSane, Keys;
    hide KeepsSettable, SameNames, NamesOf, PlainNames, Storable;
    BlockRoundTrip(client);
    SentNames(client);
    SameNamesAmong(norm, sys, NamesOf(server) + NamesOf(client) + {name},
                   NamesOf(server) + NamesOf(Sent(client)) + {name});
    AdoptionEffect(norm, sys, server, env, Sent(client), name);
    SentFirst(norm, client, norm(name));
    FirstUsableMeans(norm, client, name);
    MayTouchSettable(norm, name);
    if MayTouch(norm, name) {
      SentKeys(norm, client, name);
      if norm(name) in Keys(norm, client) { KeyIsUsable(norm, client, name); }
    }
  }

  lemma MayTouchSettable(norm: Norm, name: Wide)
    ensures MayTouch(norm, name) ==> IsSettable(name)
  {}

  lemma {:induction false} KeyIsUsable(norm: Norm, vars: seq<Var>, name: Wide)
    requires KeepsSettable(norm) && Storable(vars) && MayTouch(norm, name) && norm(name) in Keys(norm, vars)
    ensures FirstUsable(norm, vars, norm(name)).Some?
  {
    assert vars[0] in vars && forall v :: v in vars[1..] ==> v in vars;
    if norm(vars[0].name) == norm(name) {
      assert IsSettable(vars[0].name);
    } else {
      KeyIsUsable(norm, vars[1..], name);
    }
  }
}
