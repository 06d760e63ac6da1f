/**
 * Translation of refs by many threads at once: the fast path, the limit that is raised by compare-and-swap, and the
 * cross-over mapping that is published once. One section of the file, all threads, every interleaving.
 */
module Translation {
  import opened Options
  import opened SlabSets

  /** Arrays that start in the section, by offset, with their sizes; and the page size of the system. */
  datatype Env = Env(arrays: map<nat, nat>, page: nat)

  ghost predicate Crosses(env: Env, x: nat) {
    x in env.arrays && x + env.arrays[x] > SECTION
  }

  /** What holds of live arrays: they start in the section, are not empty and share no byte. */
  ghost predicate EnvOk(env: Env) {
    && env.page > 0
    && (forall x :: x in env.arrays ==> x < SECTION && env.arrays[x] > 0)
    && (forall x, y :: x in env.arrays && y in env.arrays && x < y ==> x + env.arrays[x] <= y)
  }

  /** At most one array crosses the end of the section, and the others end where it starts or before. */
  lemma OneCrosses(env: Env, x: nat, y: nat)
    requires EnvOk(env) && Crosses(env, x) && y in env.arrays && y != x
    ensures !Crosses(env, y) && y + env.arrays[y] <= x
  {
  }

  function Floor(env: Env, x: nat): nat
    requires env.page > 0
  {
    x - x % env.page
  }

  /** A mapping starts at the page that holds its first byte. */
  lemma FloorOk(env: Env, x: nat)
    requires env.page > 0
    ensures Floor(env, x) % env.page == 0 && Floor(env, x) <= x < Floor(env, x) + env.page
  {
    Multiple(env.page, x / env.page);
    assert Floor(env, x) == env.page * (x / env.page);
  }

  lemma Multiple(p: nat, q: nat)
    requires p > 0
    ensures p * q % p == 0
  {
    var n := p * q;
    assert n % p == p * (q - n / p);
    NoMultiple(p, q - n / p);
  }

  /** Between 0 and p there is no multiple of p. */
  lemma NoMultiple(p: nat, d: int)
    requires 0 <= p * d < p
    ensures d == 0
  {
  }

  /** How far an array lets the limit be raised. */
  function Target(env: Env, x: nat): nat
    requires x in env.arrays
  {
    if x + env.arrays[x] > SECTION then x else x + env.arrays[x]
  }

  /**
   * A translation entry: the limit below which the primary mapping will do, and the cross-over mapping if published.
   */
  datatype Entry = Entry(limit: nat, base: nat, published: bool)

  /**
   * Where a thread is in translate_critical, translate_less_critical, get_or_add_xover_mapping or a copy of the entry.
   */
  datatype Pc =
    | Idle
    | Fast(x: nat)
    | Slow(x: nat)
    | Raise(x: nat, seen: nat)
    | Raised(x: nat)
    | Wanting(x: nat)
    | Locked(x: nat)
    | Based(x: nat)
    | Leaving(x: nat)
    | Reload(x: nat)
    | InPrimary(x: nat)
    | InCrossOver(x: nat, delta: int)
    | Copying(published: bool)

  /**
   * The entry, the mutex, the mapping made for crossing (first and last byte + 1), the threads, and copies of the
   * entry.
   */
  datatype State =
    State(e: Entry, lock: Option<nat>, mapping: Option<(nat, nat)>, pcs: map<nat, Pc>, copies: seq<Entry>)

  ghost predicate EntryOk(env: Env, e: Entry)
    requires env.page > 0
  {
    && (forall x :: Crosses(env, x) ==> e.limit <= x)
    && (e.published ==> Crosses(env, e.limit) && e.base == Floor(env, e.limit))
  }

  ghost predicate Init(env: Env, s: State)
    requires env.page > 0
  {
    && EntryOk(env, s.e) && s.lock.None? && s.copies == [] && (s.e.published ==> s.mapping.Some?)
    && (s.mapping.Some? ==> exists x :: Crosses(env, x) && Covers(env, s.mapping.value, x))
    && (forall t :: t in s.pcs ==> s.pcs[t].Idle?)
  }

  /** The mapping starts at the page of x and reaches its end. */
  ghost predicate Covers(env: Env, m: (nat, nat), x: nat)
    requires env.page > 0
  {
    x in env.arrays && m.0 == Floor(env, x) && m.1 >= x + env.arrays[x]
  }

  /**
   * What the scheduler, the memory and the caller decide: the array to translate (or to copy the entry, if there is
   * no such array), the value a relaxed load gives, and whether a step that may fail succeeds.
   */
  datatype Choice = Choice(x: nat, seen: nat, hit: bool)

  function Min(a: nat, b: nat): nat {
    if a < b then a else b
  }

  function Go(s: State, t: nat, pc: Pc): State {
    s.(pcs := s.pcs[t := pc])
  }

  /** The loop that raises the limit: done, or a compare-and-swap that succeeds, or one that fails and loads anew. */
  function RaiseStep(env: Env, s: State, t: nat, x: nat, seen: nat, c: Choice): State
    requires x in env.arrays
  {
    if Target(env, x) <= seen then Go(s, t, Raised(x))
    else if c.hit && s.e.limit == seen then s.(e := s.e.(limit := Target(env, x)), pcs := s.pcs[t := Raised(x)])
    else Go(s, t, Raise(x, Min(c.seen, s.e.limit)))
  }

  /** In the locked section: leave a published mapping alone, otherwise make one and note its base. */
  function LockedStep(env: Env, s: State, t: nat, x: nat): State
    requires x in env.arrays && env.page > 0
  {
    if s.e.published then Go(s, t, Leaving(x))
    else s.(mapping := if s.mapping.Some? then s.mapping else Some((Floor(env, x), x + env.arrays[x])),
            e := s.e.(base := Floor(env, x)), pcs := s.pcs[t := Based(x)])
  }

  /** One step of thread t. A relaxed load may give an older value of the limit; a weak compare-and-swap may fail. */
  function Next(env: Env, s: State, t: nat, c: Choice): State
    requires env.page > 0
  {
    if t !in s.pcs then s
    else if s.pcs[t].Idle? then Go(s, t, if c.x in env.arrays then Fast(c.x) else Copying(s.e.published))
    else if s.pcs[t].Copying? then CopyStep(s, t, s.pcs[t].published)
    else if s.pcs[t].x !in env.arrays then s
    else
      var x := s.pcs[t].x;
      match s.pcs[t]
      case Fast(_) => Go(s, t, if x < Min(c.seen, s.e.limit) then InPrimary(x) else Slow(x))
      case Slow(_) => Go(s, t, Raise(x, Min(c.seen, s.e.limit)))
      case Raise(_, seen) => RaiseStep(env, s, t, x, seen, c)
      case Raised(_) =>
        if x + env.arrays[x] <= SECTION then Go(s, t, InPrimary(x))
        else if s.e.published && c.hit then Go(s, t, InCrossOver(x, x - s.e.base))
        else Go(s, t, Wanting(x))
      case Wanting(_) => if s.lock.None? then s.(lock := Some(t), pcs := s.pcs[t := Locked(x)]) else s
      case Locked(_) => LockedStep(env, s, t, x)
      case Based(_) => s.(e := s.e.(published := true), pcs := s.pcs[t := Leaving(x)])
      case Leaving(_) => s.(lock := None, pcs := s.pcs[t := Reload(x)])
      case Reload(_) => Go(s, t, InCrossOver(x, x - s.e.base))
      case InPrimary(_) => Go(s, t, Idle)
      case InCrossOver(_, _) => Go(s, t, Idle)
  }

  /** The copy takes the limit after it has seen whether the mapping is published. */
  function CopyStep(s: State, t: nat, published: bool): State {
    s.(copies := s.copies + [Entry(s.e.limit, if published then s.e.base else 0, published)], pcs := s.pcs[t := Idle])
  }

  // ---- What every step keeps ----

  ghost predicate PcOk(env: Env, s: State, t: nat, pc: Pc)
    requires env.page > 0
  {
    match pc
    case Idle => true
    case Fast(x) => x in env.arrays
    case Slow(x) => x in env.arrays
    case Raise(x, seen) => x in env.arrays && seen <= s.e.limit
    case Raised(x) => x in env.arrays && Target(env, x) <= s.e.limit
    case Wanting(x) => AtLimit(env, s, x)
    case Locked(x) => AtLimit(env, s, x) && s.lock == Some(t)
    case Based(x) =>
      && AtLimit(env, s, x) && s.lock == Some(t) && !s.e.published && s.e.base == Floor(env, x)
      && s.mapping.Some?
    case Leaving(x) => AtLimit(env, s, x) && s.lock == Some(t) && s.e.published
    case Reload(x) => AtLimit(env, s, x) && s.e.published
    case InPrimary(x) => x in env.arrays && x + env.arrays[x] <= SECTION
    case InCrossOver(x, delta) => AtLimit(env, s, x) && s.e.published && delta == x - s.e.base
    case Copying(p) => p ==> s.e.published
  }

  /** The limit has reached the crossing array, and stays there. */
  ghost predicate AtLimit(env: Env, s: State, x: nat) {
    Crosses(env, x) && s.e.limit == x
  }

  /** In the part of get_or_add_xover_mapping that the mutex guards. */
  predicate Holding(pc: Pc) {
    pc.Locked? || pc.Based? || pc.Leaving?
  }

  /** The mutex is held only by a thread in the guarded part. */
  ghost predicate HolderOk(s: State) {
    s.lock.Some? ==> s.lock.value in s.pcs && Holding(s.pcs[s.lock.value])
  }

  ghost predicate Inv(env: Env, s: State)
    requires env.page > 0
  {
    && EntryOk(env, s.e)
    && (s.e.published ==> s.mapping.Some?)
    && (s.mapping.Some? ==> forall x :: Crosses(env, x) ==> Covers(env, s.mapping.value, x))
    && (forall t :: t in s.pcs ==> PcOk(env, s, t, s.pcs[t]))
    && HolderOk(s)
    && (forall c :: c in s.copies ==> EntryOk(env, c))
  }

  lemma InitInv(env: Env, s: State)
    requires EnvOk(env) && Init(env, s)
    ensures Inv(env, s)
  {
    if s.mapping.Some? {
      var x :| Crosses(env, x) && Covers(env, s.mapping.value, x);
      forall y | Crosses(env, y) ensures y == x {
        if y != x {
          OneCrosses(env, x, y);
        }
      }
    }
  }

  /** The limit never passes the crossing array, whoever raises it. */
  lemma TargetOk(env: Env, x: nat)
    requires EnvOk(env) && x in env.arrays
    ensures forall y :: Crosses(env, y) ==> Target(env, x) <= y
  {
    forall y | Crosses(env, y) ensures Target(env, x) <= y {
      if x != y {
        OneCrosses(env, y, x);
      }
    }
  }

  /** What a step of thread t can do to what the other threads know. */
  ghost predicate Stable(env: Env, s: State, s': State, t: nat) {
    && s.e.limit <= s'.e.limit
    && (s.e.published ==> s'.e == s.e && s'.mapping == s.mapping)
    && (s.lock != Some(t) ==> s'.e.base == s.e.base && s'.e.published == s.e.published && s'.mapping == s.mapping)
    && (s.mapping.Some? ==> s'.mapping.Some?)
    && (forall u :: u != t && s.lock == Some(u) ==> s'.lock == Some(u))
    && (forall x :: Crosses(env, x) && s.e.limit == x ==> s'.e.limit == x)
    && s'.pcs == s.pcs[t := if t in s'.pcs then s'.pcs[t] else Idle]
  }

  lemma RaiseOk(env: Env, s: State, t: nat, c: Choice)
    requires EnvOk(env) && Inv(env, s) && t in s.pcs && s.pcs[t].Raise?
    ensures var s' := Next(env, s, t, c);
            Stable(env, s, s', t) && EntryOk(env, s'.e) && PcOk(env, s', t, s'.pcs[t])
  {
    assert PcOk(env, s, t, s.pcs[t]);
    var x := s.pcs[t].x;
    TargetOk(env, x);
    if s.e.published {
      assert Crosses(env, s.e.limit);
    }
  }

  lemma LockedOk(env: Env, s: State, t: nat, c: Choice)
    requires EnvOk(env) && Inv(env, s) && t in s.pcs && (s.pcs[t].Locked? || s.pcs[t].Based? || s.pcs[t].Leaving?)
    ensures var s' := Next(env, s, t, c);
            && Stable(env, s, s', t) && EntryOk(env, s'.e) && PcOk(env, s', t, s'.pcs[t])
            && (s'.e.published ==> s'.mapping.Some?)
            && (s'.mapping.Some? ==> forall x :: Crosses(env, x) ==> Covers(env, s'.mapping.value, x))
  {
    assert PcOk(env, s, t, s.pcs[t]);
    var x := s.pcs[t].x;
    forall y | Crosses(env, y) ensures y == x {
      if y != x {
        OneCrosses(env, x, y);
      }
    }
  }

  lemma OtherOk(env: Env, s: State, t: nat, c: Choice)
    requires EnvOk(env) && Inv(env, s) && t in s.pcs
    requires !s.pcs[t].Raise? && !s.pcs[t].Locked? && !s.pcs[t].Based? && !s.pcs[t].Leaving?
    ensures var s' := Next(env, s, t, c);
            Stable(env, s, s', t) && s'.e == s.e && s'.mapping == s.mapping && PcOk(env, s', t, s'.pcs[t])
    ensures forall e :: e in Next(env, s, t, c).copies ==> EntryOk(env, e)
  {
    assert PcOk(env, s, t, s.pcs[t]);
    if s.pcs[t].Fast? || s.pcs[t].Raised? {
      LookOk(env, s, t, c);
    } else if s.pcs[t].Idle? || s.pcs[t].Copying? {
      CopyOk(env, s, t, c);
    }
  }

  /** Comparing with the limit, or looking for the mapping. */
  lemma LookOk(env: Env, s: State, t: nat, c: Choice)
    requires EnvOk(env) && Inv(env, s) && t in s.pcs && (s.pcs[t].Fast? || s.pcs[t].Raised?)
    ensures var s' := Next(env, s, t, c);
            Stable(env, s, s', t) && s' == s.(pcs := s'.pcs) && PcOk(env, s', t, s'.pcs[t])
  {
    assert PcOk(env, s, t, s.pcs[t]);
    var x := s.pcs[t].x;
    assert Crosses(env, x) ==> s.e.limit <= x;
  }

  /** Starting, and copying the entry. */
  lemma CopyOk(env: Env, s: State, t: nat, c: Choice)
    requires EnvOk(env) && Inv(env, s) && t in s.pcs && (s.pcs[t].Idle? || s.pcs[t].Copying?)
    ensures var s' := Next(env, s, t, c);
            && Stable(env, s, s', t) && s' == s.(pcs := s'.pcs, copies := s'.copies) && PcOk(env, s', t, s'.pcs[t])
            && forall e :: e in s'.copies ==> EntryOk(env, e)
  {
    assert PcOk(env, s, t, s.pcs[t]);
  }

  /** The other threads keep what they know. */
  lemma OthersKeep(env: Env, s: State, s': State, t: nat, u: nat)
    requires EnvOk(env) && Stable(env, s, s', t) && EntryOk(env, s.e) && u in s.pcs && u != t
    requires PcOk(env, s, u, s.pcs[u])
    ensures PcOk(env, s', u, s.pcs[u])
  {
  }

  /** Whoever takes the mutex enters the guarded part, and whoever leaves that part gives the mutex back. */
  lemma HolderKept(env: Env, s: State, t: nat, c: Choice)
    requires EnvOk(env) && Inv(env, s)
    ensures HolderOk(Next(env, s, t, c))
  {
    if t in s.pcs {
      assert PcOk(env, s, t, s.pcs[t]);
    }
  }

  lemma NextKeeps(env: Env, s: State, t: nat, c: Choice)
    requires EnvOk(env) && Inv(env, s)
    ensures var s' := Next(env, s, t, c);
            Inv(env, s') && s.e.limit <= s'.e.limit && (s.e.published ==> s'.e == s.e)
  {
    var s' := Next(env, s, t, c);
    HolderKept(env, s, t, c);
    if t in s.pcs {
      if s.pcs[t].Raise? {
        RaiseOk(env, s, t, c);
      } else if s.pcs[t].Locked? || s.pcs[t].Based? || s.pcs[t].Leaving? {
        LockedOk(env, s, t, c);
      } else {
        OtherOk(env, s, t, c);
      }
      forall u | u in s'.pcs ensures PcOk(env, s', u, s'.pcs[u]) {
        if u != t {
          OthersKeep(env, s, s', t, u);
        }
      }
    }
  }

  // ---- Every run ----

  /** The state after the first n steps of a schedule. */
  function Exec(env: Env, s: State, schedule: seq<(nat, Choice)>, n: nat): State
    requires env.page > 0 && n <= |schedule|
  {
    if n == 0 then s else Next(env, Exec(env, s, schedule, n - 1), schedule[n - 1].0, schedule[n - 1].1)
  }

  lemma {:induction false} ExecInv(env: Env, s: State, schedule: seq<(nat, Choice)>, n: nat)
    requires EnvOk(env) && Init(env, s) && n <= |schedule|
    ensures Inv(env, Exec(env, s, schedule, n))
  {
    if n == 0 {
      InitInv(env, s);
    } else {
      ExecInv(env, s, schedule, n - 1);
      NextKeeps(env, Exec(env, s, schedule, n - 1), schedule[n - 1].0, schedule[n - 1].1);
    }
  }

  /** Over every run the limit only grows, and once the cross-over mapping is published the entry is final. */
  lemma {:induction false} LimitGrows(env: Env, s: State, schedule: seq<(nat, Choice)>, m: nat, n: nat)
    requires EnvOk(env) && Init(env, s) && m <= n <= |schedule|
    ensures var e, e' := Exec(env, s, schedule, m).e, Exec(env, s, schedule, n).e;
            e.limit <= e'.limit && (e.published ==> e' == e)
    decreases n
  {
    if m < n {
      LimitGrows(env, s, schedule, m, n - 1);
      ExecInv(env, s, schedule, n - 1);
      NextKeeps(env, Exec(env, s, schedule, n - 1), schedule[n - 1].0, schedule[n - 1].1);
    }
  }

  /**
   * In every state of every run the limit is at most the offset of a crossing array, and equals it once the mapping
   * is published; so do the copies of the entry.
   */
  lemma {:induction false} LimitSafe(env: Env, s: State, schedule: seq<(nat, Choice)>, n: nat, x: nat)
    requires EnvOk(env) && Init(env, s) && n <= |schedule| && Crosses(env, x)
    ensures var s' := Exec(env, s, schedule, n);
            && s'.e.limit <= x && (s'.e.published ==> s'.e.limit == x)
            && forall e :: e in s'.copies ==> e.limit <= x && (e.published ==> e.limit == x && e.base == Floor(env, x))
  {
    ExecInv(env, s, schedule, n);
    var s' := Exec(env, s, schedule, n);
    forall y | Crosses(env, y) ensures y == x {
      if y != x {
        OneCrosses(env, x, y);
      }
    }
  }

  /**
   * In every state of every run, a thread that uses the primary mapping has an array that lies wholly in the section,
   * and one that uses the cross-over mapping has the array that crosses, at the right distance from the start of a
   * mapping that reaches its end.
   */
  lemma {:induction false} AddressSafe(env: Env, s: State, schedule: seq<(nat, Choice)>, n: nat, t: nat)
    requires EnvOk(env) && Init(env, s) && n <= |schedule| && t in Exec(env, s, schedule, n).pcs
    ensures var s' := Exec(env, s, schedule, n);
            && (s'.pcs[t].InPrimary? ==> s'.pcs[t].x in env.arrays && s'.pcs[t].x + env.arrays[s'.pcs[t].x] <= SECTION)
            && (s'.pcs[t].InCrossOver? ==>
                  var x := s'.pcs[t].x;
                  && Crosses(env, x) && s'.mapping.Some? && 0 <= s'.pcs[t].delta < env.page
                  && s'.mapping.value.0 % env.page == 0
                  && s'.mapping.value.0 + s'.pcs[t].delta == x && x + env.arrays[x] <= s'.mapping.value.1)
  {
    ExecInv(env, s, schedule, n);
    var s' := Exec(env, s, schedule, n);
    assert PcOk(env, s', t, s'.pcs[t]);
    if s'.pcs[t].InCrossOver? {
      FloorOk(env, s'.pcs[t].x);
    }
  }

  /** In the locked section there is one thread, and its array is at the limit, as the original asserts. */
  lemma {:induction false} LockedAgrees(env: Env, s: State, schedule: seq<(nat, Choice)>, n: nat, t: nat, u: nat)
    requires EnvOk(env) && Init(env, s) && n <= |schedule|
    requires var s' := Exec(env, s, schedule, n);
             && t in s'.pcs && s'.pcs[t].Locked? && u in s'.pcs
             && (s'.pcs[u].Locked? || s'.pcs[u].Based? || s'.pcs[u].Leaving?)
    ensures u == t && Exec(env, s, schedule, n).pcs[t].x == Exec(env, s, schedule, n).e.limit
  {
    ExecInv(env, s, schedule, n);
    var s' := Exec(env, s, schedule, n);
    assert PcOk(env, s', t, s'.pcs[t]);
    assert PcOk(env, s', u, s'.pcs[u]);
  }

  /** In every state of every run the mutex is held by exactly the thread in the guarded part, if there is one. */
  lemma {:induction false} LockHeld(env: Env, s: State, schedule: seq<(nat, Choice)>, n: nat, t: nat)
    requires EnvOk(env) && Init(env, s) && n <= |schedule|
    ensures var s' := Exec(env, s, schedule, n);
            s'.lock == Some(t) <==> t in s'.pcs && Holding(s'.pcs[t])
  {
    ExecInv(env, s, schedule, n);
    var s' := Exec(env, s, schedule, n);
    if t in s'.pcs {
      assert PcOk(env, s', t, s'.pcs[t]);
    }
  }

  // ---- Progress ----

  /** A thread on its own: its loads give the newest value and its compare-and-swaps do not fail for no reason. */
  function Alone(env: Env, s: State, t: nat, k: nat): State
    requires env.page > 0
    decreases k
  {
    if k == 0 then s else Alone(env, Next(env, s, t, Choice(0, s.e.limit, true)), t, k - 1)
  }

  /** A thread with an array to translate. */
  predicate Busy(pc: Pc) {
    !pc.Idle? && !pc.Copying?
  }

  /** How many steps a thread that nobody disturbs has to go at most. */
  function StepsLeft(s: State, pc: Pc): nat
    requires Busy(pc)
  {
    match pc
    case Fast(_) => 9
    case Slow(_) => 8
    case Raise(x, seen) => if seen == s.e.limit then 7 else 8
    case Raised(_) => 6
    case Wanting(_) => 5
    case Locked(_) => 4
    case Based(_) => 3
    case Leaving(_) => 2
    case Reload(_) => 1
    case InPrimary(_) => 0
    case InCrossOver(_, _) => 0
  }

  /** The address for array x: in the primary mapping if it fits, else in the mapping that starts at its page. */
  ghost predicate Translated(env: Env, pc: Pc, x: nat)
    requires env.page > 0 && x in env.arrays
  {
    pc == if Crosses(env, x) then InCrossOver(x, x - Floor(env, x)) else InPrimary(x)
  }

  /** No other thread holds the mutex. */
  predicate Free(s: State, t: nat) {
    s.lock.None? || s.lock == Some(t)
  }

  lemma StepForward(env: Env, s: State, t: nat)
    requires EnvOk(env) && Inv(env, s) && t in s.pcs && Busy(s.pcs[t]) && Free(s, t)
    requires !s.pcs[t].InPrimary? && !s.pcs[t].InCrossOver?
    ensures var s' := Next(env, s, t, Choice(0, s.e.limit, true));
            && t in s'.pcs && Busy(s'.pcs[t]) && s'.pcs[t].x == s.pcs[t].x && Free(s', t)
            && StepsLeft(s', s'.pcs[t]) < StepsLeft(s, s.pcs[t])
  {
    assert PcOk(env, s, t, s.pcs[t]);
  }

  lemma {:induction false} Finishes(env: Env, s: State, t: nat) returns (k: nat)
    requires EnvOk(env) && Inv(env, s) && t in s.pcs && Busy(s.pcs[t]) && Free(s, t)
    ensures s.pcs[t].x in env.arrays && k <= StepsLeft(s, s.pcs[t])
    ensures var s' := Alone(env, s, t, k);
            t in s'.pcs && Translated(env, s'.pcs[t], s.pcs[t].x)
    decreases StepsLeft(s, s.pcs[t])
  {
    assert PcOk(env, s, t, s.pcs[t]);
    if s.pcs[t].InPrimary? || s.pcs[t].InCrossOver? {
      k := 0;
    } else {
      StepForward(env, s, t);
      var c := Choice(0, s.e.limit, true);
      NextKeeps(env, s, t, c);
      k := Finishes(env, Next(env, s, t, c), t);
      k := k + 1;
    }
  }

  /**
   * From every state of every run in which no other thread holds the mutex, a thread that has an array to translate
   * and runs on its own has its address after at most nine steps.
   */
  lemma {:induction false} Progress(env: Env, s: State, schedule: seq<(nat, Choice)>, n: nat, t: nat) returns (k: nat)
    requires EnvOk(env) && Init(env, s) && n <= |schedule|
    requires var s' := Exec(env, s, schedule, n); t in s'.pcs && Busy(s'.pcs[t]) && Free(s', t)
    ensures k <= 9
    ensures var s' := Exec(env, s, schedule, n);
            var after := Alone(env, s', t, k);
            && s'.pcs[t].x in env.arrays && t in after.pcs && Translated(env, after.pcs[t], s'.pcs[t].x)
            && (s'.pcs[t].Fast? && s'.pcs[t].x < s'.e.limit ==> k == 1)
  {
    ExecInv(env, s, schedule, n);
    var s' := Exec(env, s, schedule, n);
    k := Finishes(env, s', t);
    if s'.pcs[t].Fast? && s'.pcs[t].x < s'.e.limit {
      FastPath(env, s', t);
      k := 1;
    }
  }

  /** Below the limit the comparison with the limit is all there is to do. */
  lemma FastPath(env: Env, s: State, t: nat)
    requires EnvOk(env) && Inv(env, s) && t in s.pcs && s.pcs[t].Fast? && s.pcs[t].x < s.e.limit
    ensures s.pcs[t].x in env.arrays
    ensures var s' := Alone(env, s, t, 1);
            s' == s.(pcs := s'.pcs) && t in s'.pcs && Translated(env, s'.pcs[t], s.pcs[t].x)
  {
    assert PcOk(env, s, t, s.pcs[t]);
    assert Alone(env, s, t, 1) == Next(env, s, t, Choice(0, s.e.limit, true));
  }

  /** The steps of one thread, whatever its loads give and whether or not its compare-and-swaps succeed. */
  function Own(env: Env, s: State, t: nat, cs: seq<Choice>): State
    requires env.page > 0
  {
    if cs == [] then s else Next(env, Own(env, s, t, cs[..|cs| - 1]), t, cs[|cs| - 1])
  }

  /** A thread that waits for the mutex waits for one that gives it back within three steps of its own. */
  lemma {:induction false} LockReleased(env: Env, s: State, schedule: seq<(nat, Choice)>, n: nat, t: nat,
                                        cs: seq<Choice>)
    returns (k: nat)
    requires EnvOk(env) && Init(env, s) && n <= |schedule| && |cs| == 3
    requires Exec(env, s, schedule, n).lock == Some(t)
    ensures 1 <= k <= 3 && Own(env, Exec(env, s, schedule, n), t, cs[..k]).lock.None?
  {
    ExecInv(env, s, schedule, n);
    var s0 := Exec(env, s, schedule, n);
    assert PcOk(env, s0, t, s0.pcs[t]);
    k := if s0.pcs[t].Leaving? then 1 else if s0.pcs[t].Based? || s0.e.published then 2 else 3;
    assert cs[..1][..0] == [] && cs[..2][..1] == cs[..1] && cs[..3][..2] == cs[..2];
    var s1 := Next(env, s0, t, cs[0]);
    assert Own(env, s0, t, cs[..1]) == s1;
    var s2 := Next(env, s1, t, cs[1]);
    assert Own(env, s0, t, cs[..2]) == s2;
    assert Own(env, s0, t, cs[..3]) == Next(env, s2, t, cs[2]);
  }

  /** A copy of the entry made without interruption is the entry, less a base that is not published yet. */
  lemma CopyIsEntry(env: Env, s: State, t: nat, cs: seq<Choice>)
    requires env.page > 0 && t in s.pcs && s.pcs[t].Idle? && |cs| == 2 && cs[0].x !in env.arrays
    ensures Own(env, s, t, cs)
         == s.(copies := s.copies + [if s.e.published then s.e else Entry(s.e.limit, 0, false)])
  {
    assert cs[..1][..0] == [];
    var s1 := Next(env, s, t, cs[0]);
    assert Own(env, s, t, cs[..1]) == s1;
    assert s1.pcs[t := Idle] == s.pcs;
  }
}
