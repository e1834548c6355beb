/**
 The option language of `cache/options.go`: `Option` values for `Set` and `SetOrFail`, `GetOption` values
 for `Get`, the records they are folded into, and the effect the folded record has on an entry.
 */
module Options {
  import opened Common
  import opened Clock

  // ----- options of Set and SetOrFail -----

  datatype SetOption =
    | WithTTL(ttl: Duration)
    | WithValidUntil(validUntil: Time)

  /** The deadline that applying one option at clock reading `now` writes. */
  function Deadline(opt: SetOption, now: Time): Time {
    match opt
    case WithTTL(ttl) => if ttl == 0 then 0 else if ttl < 0 then now else now + ttl
    case WithValidUntil(validUntil) => validUntil
  }

  /** The deadline of a new item: the last option decides; without options the default TTL does. */
  function NewDeadline(ttl: Duration, opts: seq<SetOption>, now: Time): Time {
    if opts != [] then Deadline(opts[|opts| - 1], now)
    else if ttl > 0 then now + ttl
    else 0
  }

  /** The caller explicitly asked for an entry that never expires. */
  predicate AsksForever(ttl: Duration, opts: seq<SetOption>) {
    if opts == [] then ttl <= 0
    else opts[|opts| - 1] in {WithTTL(0), WithValidUntil(0)}
  }

  /** Adding a duration never produces the zero deadline, so "never expires" is always asked for. */
  lemma NewDeadlineIsZeroIffAsked(ttl: Duration, opts: seq<SetOption>, now: Time)
    requires Modern(now)
    ensures NewDeadline(ttl, opts, now) == 0 <==> AsksForever(ttl, opts)
  {}

  /** The record that `newItem` and the Redis backend fill in, option by option. */
  class SetOptions {
    var validUntil: Time

    constructor (validUntil: Time)
      ensures this.validUntil == validUntil
    {
      this.validUntil := validUntil;
    }

    /** Applies the options in order; option number i reads the clock at `clock[i]`. Only the last one matters. */
    method Apply(opts: seq<SetOption>, clock: seq<Time>)
      requires |clock| == |opts|
      modifies this
      ensures validUntil == if opts == [] then old(validUntil)
                            else Deadline(opts[|opts| - 1], clock[|opts| - 1])
    {
      for i := 0 to |opts|
        invariant validUntil == if i == 0 then old(validUntil) else Deadline(opts[i - 1], clock[i - 1])
      {
        match opts[i]
        case WithTTL(ttl) =>
          if ttl == 0 {
            validUntil := 0;
          } else if ttl < 0 {
            validUntil := clock[i];
          } else {
            validUntil := clock[i] + ttl;
          }
        case WithValidUntil(t) =>
          validUntil := t;
      }
    }
  }

  // ----- options of Get -----

  datatype GetOption =
    | AndSetTTL(ttl: Duration)
    | AndUpdateTTL(delta: Duration)
    | AndSetValidUntil(validUntil: Time)
    | AndDefaultTTL
    | AndDelete

  datatype GetRecord = GetRecord(
    validUntil: Option<Time>,
    setTTL: Option<Duration>,
    updateTTL: Option<Duration>,
    defaultTTL: bool,
    delete: bool)
  {
    predicate IsEmpty() {
      validUntil == None && setTTL == None && updateTTL == None && !defaultTTL && !delete
    }

    function With(opt: GetOption): GetRecord {
      match opt
      case AndSetTTL(d) => this.(setTTL := Some(d))
      case AndUpdateTTL(d) => this.(updateTTL := Some(d))
      case AndSetValidUntil(t) => this.(validUntil := Some(t))
      case AndDefaultTTL => this.(defaultTTL := true)
      case AndDelete => this.(delete := true)
    }
  }

  const NOTHING := GetRecord(None, None, None, false, false)

  function FoldFrom(r: GetRecord, opts: seq<GetOption>): GetRecord
    decreases |opts|
  {
    if opts == [] then r else FoldFrom(r.With(opts[0]), opts[1..])
  }

  function Fold(opts: seq<GetOption>): GetRecord {
    FoldFrom(NOTHING, opts)
  }

  /** The mutable record of a `Get` call, filled in field by field. */
  class GetOptions {
    var validUntil: Option<Time>
    var setTTL: Option<Duration>
    var updateTTL: Option<Duration>
    var defaultTTL: bool
    var delete: bool

    constructor ()
      ensures Record() == NOTHING
    {
      validUntil, setTTL, updateTTL, defaultTTL, delete := None, None, None, false, false;
    }

    function Record(): GetRecord
      reads this
    {
      GetRecord(validUntil, setTTL, updateTTL, defaultTTL, delete)
    }

    method Apply(opts: seq<GetOption>)
      modifies this
      ensures Record() == FoldFrom(old(Record()), opts)
    {
      for i := 0 to |opts|
        invariant FoldFrom(Record(), opts[i..]) == FoldFrom(old(Record()), opts)
      {
        match opts[i] {
          case AndSetTTL(d) => setTTL := Some(d);
          case AndUpdateTTL(d) => updateTTL := Some(d);
          case AndSetValidUntil(t) => validUntil := Some(t);
          case AndDefaultTTL => defaultTTL := true;
          case AndDelete => delete := true;
        }
        assert opts[i..][1..] == opts[i + 1..];
      }
    }
  }

  // ----- what a folded record does to a live entry -----

  datatype Effect = Remove | Keep | Rewrite(validUntil: Time)

  /**
   The switch of the locked read: deletion first, then an exact instant, then a TTL from now, then an extension of
   the running deadline, then the cache's default TTL.
   */
  function EffectOf(o: GetRecord, current: Time, now: Time, ttl: Duration): Effect {
    if o.delete then Remove
    else if o.validUntil.Some? then Rewrite(o.validUntil.value)
    else if o.setTTL.Some? then Rewrite(now + o.setTTL.value)
    else if o.updateTTL.Some? then
      Rewrite(if current == 0 then now + o.updateTTL.value else current + o.updateTTL.value)
    else if o.defaultTTL then Rewrite(if ttl > 0 then now + ttl else 0)
    else Keep
  }

  /** A read explicitly asked for an entry that never expires. */
  predicate ReadAsksForever(o: GetRecord, ttl: Duration) {
    if o.validUntil.Some? then o.validUntil.value == 0
    else o.setTTL == None && o.updateTTL == None && o.defaultTTL && ttl <= 0
  }

  /** The unexpired guard (`current == 0 || now <= current`) is what keeps an extended deadline away from zero. */
  lemma RewriteIsZeroIffAsked(o: GetRecord, current: Time, now: Time, ttl: Duration)
    requires Modern(now) && (current == 0 || now <= current)
    requires !o.delete
    ensures EffectOf(o, current, now, ttl) == Rewrite(0) <==> ReadAsksForever(o, ttl)
  {}

  /** Without the guard it fails: a stale deadline can be extended exactly onto the zero time. */
  lemma UnguardedExtensionCanBecomeForever()
    ensures var o := NOTHING.With(AndUpdateTTL(-5));
            EffectOf(o, 5, TWO_63 + 1, 0) == Rewrite(0) && !ReadAsksForever(o, 0)
  {}

  // ----- normal form -----

  datatype Kind = Deletes | SetsInstant | SetsTTL | Extends | Defaults

  function KindOf(opt: GetOption): Kind {
    match opt
    case AndSetTTL(_) => SetsTTL
    case AndUpdateTTL(_) => Extends
    case AndSetValidUntil(_) => SetsInstant
    case AndDefaultTTL => Defaults
    case AndDelete => Deletes
  }

  /** The last option of one kind, searched from the end of the list. */
  function LastOf(opts: seq<GetOption>, kind: Kind): (r: Option<GetOption>)
    ensures r.Some? <==> exists i :: 0 <= i < |opts| && KindOf(opts[i]) == kind
    ensures r.Some? ==> r.value in opts && KindOf(r.value) == kind
  {
    if opts == [] then None
    else if KindOf(opts[|opts| - 1]) == kind then Some(opts[|opts| - 1])
    else
      var shorter := opts[..|opts| - 1];
      assert forall i :: 0 <= i < |shorter| ==> opts[i] == shorter[i];
      LastOf(shorter, kind)
  }

  /** The record made of the last option of each kind and nothing else. */
  function LastOfEachKind(opts: seq<GetOption>): GetRecord {
    GetRecord(
      match LastOf(opts, SetsInstant) case Some(o) => Some(o.validUntil) case None => None,
      match LastOf(opts, SetsTTL) case Some(o) => Some(o.ttl) case None => None,
      match LastOf(opts, Extends) case Some(o) => Some(o.delta) case None => None,
      LastOf(opts, Defaults).Some?,
      LastOf(opts, Deletes).Some?)
  }

  lemma {:induction false} FoldAppend(r: GetRecord, a: seq<GetOption>, b: seq<GetOption>)
    ensures FoldFrom(r, a + b) == FoldFrom(FoldFrom(r, a), b)
    decreases |a|
  {
    if a == [] {
      assert a + b == b;
    } else {
      assert (a + b)[1..] == a[1..] + b;
      FoldAppend(r.With(a[0]), a[1..], b);
    }
  }

  /** The fold of a list is its last option of each kind. */
  lemma {:induction false} FoldIsLastOfEachKind(opts: seq<GetOption>)
    ensures Fold(opts) == LastOfEachKind(opts)
  {
    if opts != [] {
      var n := |opts| - 1;
      FoldIsLastOfEachKind(opts[..n]);
      assert opts == opts[..n] + [opts[n]];
      FoldAppend(NOTHING, opts[..n], [opts[n]]);
      assert Fold(opts) == Fold(opts[..n]).With(opts[n]);
    }
  }

  /** The one option of a list that decides what happens: highest kind first, its last occurrence. */
  function Winner(opts: seq<GetOption>): (w: GetOption)
    requires opts != []
    ensures w in opts
  {
    if LastOf(opts, Deletes).Some? then LastOf(opts, Deletes).value
    else if LastOf(opts, SetsInstant).Some? then LastOf(opts, SetsInstant).value
    else if LastOf(opts, SetsTTL).Some? then LastOf(opts, SetsTTL).value
    else if LastOf(opts, Extends).Some? then LastOf(opts, Extends).value
    else
      assert LastOf(opts, Defaults).Some? by {
        var k := KindOf(opts[0]);
        assert LastOf(opts, k).Some?;
      }
      LastOf(opts, Defaults).value
  }

  /** A list of options acts on every entry exactly as its single winning option does. */
  lemma ActsAsItsWinner(opts: seq<GetOption>, current: Time, now: Time, ttl: Duration)
    requires opts != []
    ensures EffectOf(Fold(opts), current, now, ttl) == EffectOf(Fold([Winner(opts)]), current, now, ttl)
    ensures EffectOf(Fold(opts), current, now, ttl) != Keep
  {
    FoldIsLastOfEachKind(opts);
    FoldIsLastOfEachKind([Winner(opts)]);
    assert [Winner(opts)][..0] == [];
    assert LastOf(opts, KindOf(opts[0])).Some?;
  }

  /** Deletion ranks above an exact instant, that above a TTL from now, an extension, and the default TTL. */
  function Rank(opt: GetOption): nat {
    match opt
    case AndDelete => 5
    case AndSetValidUntil(_) => 4
    case AndSetTTL(_) => 3
    case AndUpdateTTL(_) => 2
    case AndDefaultTTL => 1
  }

  /** Option number i of a list decides: none ranks above it, and none of its rank comes later. */
  predicate Decides(opts: seq<GetOption>, i: nat) {
    && i < |opts|
    && (forall j :: 0 <= j < |opts| ==> Rank(opts[j]) <= Rank(opts[i]))
    && (forall j :: i < j < |opts| ==> Rank(opts[j]) < Rank(opts[i]))
  }

  lemma {:induction false} LastOfIsLast(opts: seq<GetOption>, i: nat, kind: Kind)
    requires i < |opts| && KindOf(opts[i]) == kind
    requires forall j :: i < j < |opts| ==> KindOf(opts[j]) != kind
    ensures LastOf(opts, kind) == Some(opts[i])
  {
    if i < |opts| - 1 {
      LastOfIsLast(opts[..|opts| - 1], i, kind);
    }
  }

  /** A list acts as the one option that decides. */
  lemma DecidingOptionActs(opts: seq<GetOption>, i: nat, current: Time, now: Time, ttl: Duration)
    requires Decides(opts, i)
    ensures Winner(opts) == opts[i]
    ensures EffectOf(Fold(opts), current, now, ttl) == EffectOf(NOTHING.With(opts[i]), current, now, ttl)
  {
    LastOfIsLast(opts, i, KindOf(opts[i]));
    ActsAsItsWinner(opts, current, now, ttl);
    assert Fold([opts[i]]) == FoldFrom(NOTHING.With(opts[i]), [opts[i]][1..]);
  }

  /** Neighbouring options of different kinds can be exchanged. */
  lemma KindsCommute(a: seq<GetOption>, x: GetOption, y: GetOption, b: seq<GetOption>)
    requires KindOf(x) != KindOf(y)
    ensures Fold(a + [x, y] + b) == Fold(a + [y, x] + b)
  {
    FoldAppend(NOTHING, a + [x, y], b);
    FoldAppend(NOTHING, a + [y, x], b);
    FoldAppend(NOTHING, a, [x, y]);
    FoldAppend(NOTHING, a, [y, x]);
    var r := Fold(a);
    assert [x, y][1..] == [y] && [y, x][1..] == [x];
    assert FoldFrom(r.With(x), [y]) == r.With(x).With(y);
    assert FoldFrom(r.With(y), [x]) == r.With(y).With(x);
  }

  /** Redis asks whether the folded record is empty, the memory cache whether the list is: the same question. */
  lemma EmptyRecordIffNoOptions(opts: seq<GetOption>)
    ensures Fold(opts).IsEmpty() <==> opts == []
  {
    FoldIsLastOfEachKind(opts);
    if opts != [] {
      assert LastOf(opts, KindOf(opts[0])).Some?;
    }
  }
}
