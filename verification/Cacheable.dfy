/** `BaseCacheableModel`: rows, the cache entries of lookups by primary key, and when they agree. */
module Cacheable {
  import opened Options
  import opened CacheKeys

  type Pk = int

  // The fields of a row other than its primary key, which every cached record carries.
  type Record = map<string, string>

  datatype Entry = One(record: Record) | Many(records: seq<Record>)

  /**
   Class-level settings; an empty field list caches all fields. A primary key prints as
   `spell(pk)`, and the database reads a lookup text as the key `resolve(text)`: several texts
   may name one row, as the upper-case and the lower-case form of a UUID do.
   */
  datatype Settings = Settings(
    cls: string, pkAttr: string, ttl: int, cachedFields: set<string>,
    spell: Pk -> string, resolve: string -> Pk)

  /** What a key prints is read as that key. */
  ghost predicate Lawful(c: Settings) {
    forall pk :: c.resolve(c.spell(pk)) == pk
  }

  /** The text is the one that its key prints. */
  predicate Canonical(c: Settings, text: string) {
    text == c.spell(c.resolve(text))
  }

  datatype State = State(rows: map<Pk, Record>, cache: map<string, Entry>)

  function Projection(c: Settings, r: Record): Record {
    if c.cachedFields == {} then r else map f | f in r && f in c.cachedFields :: r[f]
  }

  /** The key of `get_cached(<pk>=text)`. */
  function TextKey(c: Settings, text: string): string {
    ModelKey(c.cls, "get", [(c.pkAttr, text)])
  }

  /** The key that writes and refreshes use. */
  function PkKey(c: Settings, pk: Pk): string {
    TextKey(c, c.spell(pk))
  }

  predicate IsCached(c: Settings, s: State, text: string) {
    TextKey(c, text) in s.cache && s.cache[TextKey(c, text)].One?
  }

  /** Both records have the same cached fields, with the same values. */
  ghost predicate AgreeOnCached(c: Settings, a: Record, b: Record) {
    forall f :: c.cachedFields == {} || f in c.cachedFields ==> (f in a <==> f in b) && (f in a ==> a[f] == b[f])
  }

  /** A record cached for a lookup text shows the cached fields of the row of that text as they are now. */
  ghost predicate EntryFresh(c: Settings, s: State, text: string) {
    IsCached(c, s, text) ==>
      && c.resolve(text) in s.rows
      && AgreeOnCached(c, s.cache[TextKey(c, text)].record, s.rows[c.resolve(text)])
  }

  ghost predicate Coherent(c: Settings, s: State) {
    forall text :: EntryFresh(c, s, text)
  }

  datatype LookupError = DoesNotExist

  // ---------- the operations ----------

  function Invalidated(c: Settings, s: State, pk: Pk, backendOk: bool): State {
    if c.ttl > 0 && backendOk then s.(cache := s.cache - {PkKey(c, pk)}) else s
  }

  /** `save`: the row first, then the invalidation; a failing backend is ignored. */
  function Saved(c: Settings, s: State, pk: Pk, r: Record, backendOk: bool): State {
    Invalidated(c, s.(rows := s.rows[pk := r]), pk, backendOk)
  }

  function Deleted(c: Settings, s: State, pk: Pk, backendOk: bool): State {
    Invalidated(c, s.(rows := s.rows - {pk}), pk, backendOk)
  }

  function Stored(c: Settings, s: State, text: string, pk: Pk): State
    requires pk in s.rows
  {
    s.(cache := s.cache[TextKey(c, text) := One(Projection(c, s.rows[pk]))])
  }

  /** A full `refresh_from_db`; on a missing row it raises before it reaches the cache. */
  function Refreshed(c: Settings, s: State, pk: Pk, backendOk: bool): State {
    if pk in s.rows && c.ttl > 0 && backendOk then Stored(c, s, c.spell(pk), pk) else s
  }

  /** Whether `get_cached` answers from the cache; an entry of the wrong shape counts as a read error. */
  predicate Hit(c: Settings, s: State, text: string, backendOk: bool) {
    c.ttl > 0 && backendOk && IsCached(c, s, text)
  }

  /** The answer of `get_cached(<pk>=text)`. */
  function Answer(c: Settings, s: State, text: string, backendOk: bool): Result<Option<Record>, LookupError> {
    if Hit(c, s, text, backendOk) then Ok(Some(s.cache[TextKey(c, text)].record))
    else if c.resolve(text) in s.rows then Ok(Some(s.rows[c.resolve(text)]))
    else if c.ttl <= 0 then Err(DoesNotExist)
    else Ok(None)
  }

  /** The state it leaves. */
  function Looked(c: Settings, s: State, text: string, backendOk: bool): State {
    if !Hit(c, s, text, backendOk) && c.resolve(text) in s.rows && c.ttl > 0 && backendOk
    then Stored(c, s, text, c.resolve(text))
    else s
  }

  class CachedModel {
    const settings: Settings
    var state: State

    constructor (settings: Settings, rows: map<Pk, Record>)
      ensures this.settings == settings && state == State(rows, map[])
      ensures Coherent(settings, state)
    {
      this.settings, this.state := settings, State(rows, map[]);
    }

    method Save(pk: Pk, r: Record, backendOk: bool)
      modifies this
      ensures state == Saved(settings, old(state), pk, r, backendOk)
    {
      state := state.(rows := state.rows[pk := r]);
      InvalidateCache(pk, backendOk);
    }

    method Delete(pk: Pk, backendOk: bool)
      modifies this
      ensures state == Deleted(settings, old(state), pk, backendOk)
    {
      state := state.(rows := state.rows - {pk});
      InvalidateCache(pk, backendOk);
    }

    method InvalidateCache(pk: Pk, backendOk: bool)
      modifies this
      ensures state == Invalidated(settings, old(state), pk, backendOk)
    {
      if settings.ttl <= 0 {
        return;
      }
      var key := TextKey(settings, settings.spell(pk));
      if backendOk {
        state := state.(cache := state.cache - {key});
      }
    }

    method RefreshFromDb(pk: Pk, backendOk: bool) returns (r: Result<Record, LookupError>)
      modifies this
      ensures state == Refreshed(settings, old(state), pk, backendOk)
      ensures r == if pk in state.rows then Ok(state.rows[pk]) else Err(DoesNotExist)
    {
      if pk !in state.rows {
        return Err(DoesNotExist);
      }
      if settings.ttl > 0 && backendOk {
        var key := TextKey(settings, settings.spell(pk));
        state := state.(cache := state.cache[key := One(Projection(settings, state.rows[pk]))]);
      }
      r := Ok(state.rows[pk]);
    }

    method GetCached(text: string, backendOk: bool) returns (r: Result<Option<Record>, LookupError>)
      modifies this
      ensures r == Answer(settings, old(state), text, backendOk)
      ensures state == Looked(settings, old(state), text, backendOk)
    {
      var pk := settings.resolve(text);
      if settings.ttl <= 0 {
        return if pk in state.rows then Ok(Some(state.rows[pk])) else Err(DoesNotExist);
      }
      var key := TextKey(settings, text);
      if backendOk && key in state.cache && state.cache[key].One? {
        return Ok(Some(state.cache[key].record));
      }
      if pk !in state.rows {
        return Ok(None);
      }
      if backendOk {
        state := state.(cache := state.cache[key := One(Projection(settings, state.rows[pk]))]);
      }
      r := Ok(Some(state.rows[pk]));
    }
  }

  // ---------- keys ----------

  /** No two lookup texts share a key. */
  lemma TextKeysApart(c: Settings, a: string, b: string)
    ensures TextKey(c, a) == TextKey(c, b) <==> a == b
  {
    ModelKeysDistinct(c.cls, "get", [(c.pkAttr, a)], "get", [(c.pkAttr, b)]);
    assert [(c.pkAttr, a)][0] == (c.pkAttr, a) && [(c.pkAttr, b)][0] == (c.pkAttr, b);
  }

  /** No two rows share the key of their writes. */
  lemma PkKeysApart(c: Settings, p: Pk, q: Pk)
    requires Lawful(c)
    ensures PkKey(c, p) == PkKey(c, q) <==> p == q
  {
    TextKeysApart(c, c.spell(p), c.spell(q));
    assert c.resolve(c.spell(p)) == p && c.resolve(c.spell(q)) == q;
  }

  /** No other operation or argument list has the key of a lookup by primary key. */
  lemma OtherKeysApart(c: Settings, op: string, kwargs: seq<(string, string)>, text: string)
    requires op != "get" || kwargs != [(c.pkAttr, text)]
    ensures ModelKey(c.cls, op, kwargs) != TextKey(c, text)
  {
    var own := [(c.pkAttr, text)];
    ModelKeysDistinct(c.cls, "get", own, op, kwargs);
    if multiset(own) == multiset(kwargs) {
      assert |multiset(own)| == |own| && |multiset(kwargs)| == |kwargs|;
      assert kwargs[0] in multiset(own);
      assert kwargs == own;
    }
  }

  // ---------- what a read answers ----------

  /** The current row, as far as its cached fields go, or nothing when the row is gone. */
  ghost predicate Shows(c: Settings, rows: map<Pk, Record>, text: string, answer: Result<Option<Record>, LookupError>) {
    && answer.Ok?
    && (answer.value.Some? <==> c.resolve(text) in rows)
    && (answer.value.Some? ==> AgreeOnCached(c, answer.value.value, rows[c.resolve(text)]))
  }

  lemma AnswerCurrentIff(c: Settings, s: State, text: string)
    requires c.ttl > 0
    ensures Shows(c, s.rows, text, Answer(c, s, text, true)) <==> EntryFresh(c, s, text)
    ensures Shows(c, s.rows, text, Answer(c, s, text, false))
  {
  }

  /** Coherence is exactly that every read is current, however the key is spelled. */
  lemma CoherentIffReadsCurrent(c: Settings, s: State)
    requires c.ttl > 0
    ensures Coherent(c, s) <==> forall text, ok :: Shows(c, s.rows, text, Answer(c, s, text, ok))
  {
    forall text
      ensures Shows(c, s.rows, text, Answer(c, s, text, true)) <==> EntryFresh(c, s, text)
      ensures Shows(c, s.rows, text, Answer(c, s, text, false))
    {
      AnswerCurrentIff(c, s, text);
    }
    if forall text, ok :: Shows(c, s.rows, text, Answer(c, s, text, ok)) {
      forall text ensures EntryFresh(c, s, text) {
        assert Shows(c, s.rows, text, Answer(c, s, text, true));
      }
    }
  }

  // ---------- what keeps the cache coherent ----------

  /** The row and the entry of a text are the same in both states. */
  ghost predicate SameFor(c: Settings, s: State, s': State, text: string) {
    && (c.resolve(text) in s.rows <==> c.resolve(text) in s'.rows)
    && (c.resolve(text) in s.rows ==> s'.rows[c.resolve(text)] == s.rows[c.resolve(text)])
    && (TextKey(c, text) in s.cache <==> TextKey(c, text) in s'.cache)
    && (TextKey(c, text) in s.cache ==> s'.cache[TextKey(c, text)] == s.cache[TextKey(c, text)])
  }

  /** A lookup text of the row whose entry a write leaves in the cache. */
  ghost predicate Escapes(c: Settings, pk: Pk, text: string, backendOk: bool) {
    c.resolve(text) == pk && (backendOk ==> text != c.spell(pk))
  }

  /** What the invalidation of a write does to one lookup text. */
  lemma InvalidatedEntry(c: Settings, s: State, pk: Pk, backendOk: bool, text: string)
    requires c.ttl > 0
    ensures backendOk && text == c.spell(pk) ==> !IsCached(c, Invalidated(c, s, pk, backendOk), text)
    ensures !(backendOk && text == c.spell(pk)) ==> SameFor(c, s, Invalidated(c, s, pk, backendOk), text)
  {
    TextKeysApart(c, text, c.spell(pk));
  }

  /**
   A save keeps coherence iff, for every spelling whose entry it does not drop, that entry
   shows the new row. With the invalidation arriving these are the non-canonical spellings.
   */
  lemma SaveKeepsCoherentIff(c: Settings, s: State, pk: Pk, r: Record, backendOk: bool)
    requires Coherent(c, s) && c.ttl > 0 && Lawful(c)
    ensures Coherent(c, Saved(c, s, pk, r, backendOk)) <==>
      forall text :: Escapes(c, pk, text, backendOk) ==> EntryFresh(c, s.(rows := s.rows[pk := r]), text)
  {
    var written := s.(rows := s.rows[pk := r]);
    WriteKeepsCoherentIff(c, s, written, pk, backendOk);
  }

  /** A delete keeps coherence iff no spelling whose entry it does not drop is cached. */
  lemma DeleteKeepsCoherentIff(c: Settings, s: State, pk: Pk, backendOk: bool)
    requires Coherent(c, s) && c.ttl > 0 && Lawful(c)
    ensures Coherent(c, Deleted(c, s, pk, backendOk)) <==>
      forall text :: Escapes(c, pk, text, backendOk) ==> !IsCached(c, s, text)
  {
    var written := s.(rows := s.rows - {pk});
    WriteKeepsCoherentIff(c, s, written, pk, backendOk);
    forall text | Escapes(c, pk, text, backendOk) ensures EntryFresh(c, written, text) <==> !IsCached(c, s, text) {
    }
  }

  lemma WriteKeepsCoherentIff(c: Settings, s: State, written: State, pk: Pk, backendOk: bool)
    requires Coherent(c, s) && c.ttl > 0 && Lawful(c) && written.cache == s.cache
    requires forall p :: p != pk ==>
      (p in written.rows <==> p in s.rows) && (p in s.rows ==> written.rows[p] == s.rows[p])
    ensures Coherent(c, Invalidated(c, written, pk, backendOk)) <==>
      forall text :: Escapes(c, pk, text, backendOk) ==> EntryFresh(c, written, text)
  {
    var s' := Invalidated(c, written, pk, backendOk);
    forall text
      ensures EntryFresh(c, s', text) <==> (Escapes(c, pk, text, backendOk) ==> EntryFresh(c, written, text))
    {
      InvalidatedEntry(c, written, pk, backendOk, text);
      assert c.resolve(c.spell(pk)) == pk;
      if backendOk && text == c.spell(pk) {
      } else {
        if c.resolve(text) != pk {
          assert EntryFresh(c, s, text) && SameFor(c, s, written, text);
        }
      }
    }
  }

  // ---------- canonical spellings ----------

  /** Coherent, and cached under canonical spellings only. */
  ghost predicate Sound(c: Settings, s: State) {
    Coherent(c, s) && forall text :: IsCached(c, s, text) ==> Canonical(c, text)
  }

  /** An operation that changes no entry of a lookup text, except perhaps by dropping it. */
  lemma ShrinkingKeepsSound(c: Settings, s: State, s': State)
    requires Sound(c, s) && s'.rows == s.rows
    requires forall text :: IsCached(c, s', text) ==>
      IsCached(c, s, text) && s'.cache[TextKey(c, text)] == s.cache[TextKey(c, text)]
    ensures Sound(c, s')
  {
    forall text ensures EntryFresh(c, s', text) {
      assert EntryFresh(c, s, text);
    }
  }

  lemma SaveKeepsSound(c: Settings, s: State, pk: Pk, r: Record)
    requires Sound(c, s) && c.ttl > 0 && Lawful(c)
    ensures Sound(c, Saved(c, s, pk, r, true))
  {
    var written := s.(rows := s.rows[pk := r]);
    SaveKeepsCoherentIff(c, s, pk, r, true);
    OnlyCanonicalAfter(c, s, written, pk);
    forall text | Escapes(c, pk, text, true) ensures EntryFresh(c, written, text) {
      assert IsCached(c, written, text) ==> IsCached(c, s, text);
    }
  }

  lemma DeleteKeepsSound(c: Settings, s: State, pk: Pk)
    requires Sound(c, s) && c.ttl > 0 && Lawful(c)
    ensures Sound(c, Deleted(c, s, pk, true))
  {
    DeleteKeepsCoherentIff(c, s, pk, true);
    OnlyCanonicalAfter(c, s, s.(rows := s.rows - {pk}), pk);
  }

  lemma OnlyCanonicalAfter(c: Settings, s: State, written: State, pk: Pk)
    requires Sound(c, s) && c.ttl > 0 && written.cache == s.cache
    ensures forall text :: IsCached(c, Invalidated(c, written, pk, true), text) ==> Canonical(c, text)
  {
    forall text | IsCached(c, Invalidated(c, written, pk, true), text) ensures Canonical(c, text) {
      InvalidatedEntry(c, written, pk, true, text);
      assert IsCached(c, s, text);
    }
  }

  /** Storing the current row under one of its spellings. */
  lemma StoredEntry(c: Settings, s: State, text: string, pk: Pk, q: string)
    requires pk in s.rows && c.resolve(text) == pk
    ensures q != text ==> SameFor(c, s, Stored(c, s, text, pk), q)
    ensures q == text ==> EntryFresh(c, Stored(c, s, text, pk), q)
  {
    TextKeysApart(c, text, q);
  }

  lemma StoreKeepsSound(c: Settings, s: State, text: string, pk: Pk)
    requires Sound(c, s) && pk in s.rows && c.resolve(text) == pk && Canonical(c, text)
    ensures Sound(c, Stored(c, s, text, pk))
  {
    var s' := Stored(c, s, text, pk);
    forall q
      ensures EntryFresh(c, s', q)
      ensures IsCached(c, s', q) ==> Canonical(c, q)
    {
      StoredEntry(c, s, text, pk, q);
      assert EntryFresh(c, s, q) && (IsCached(c, s, q) ==> Canonical(c, q));
      if q != text {
      }
    }
  }

  /** A store under a key that is no lookup by primary key. */
  lemma StoreElsewhere(c: Settings, s: State, op: string, kwargs: seq<(string, string)>, e: Entry)
    requires Sound(c, s) && (op != "get" || forall text :: kwargs != [(c.pkAttr, text)])
    ensures Sound(c, s.(cache := s.cache[ModelKey(c.cls, op, kwargs) := e]))
  {
    var s' := s.(cache := s.cache[ModelKey(c.cls, op, kwargs) := e]);
    forall text | IsCached(c, s', text)
      ensures IsCached(c, s, text) && s'.cache[TextKey(c, text)] == s.cache[TextKey(c, text)]
    {
      OtherKeysApart(c, op, kwargs, text);
    }
    ShrinkingKeepsSound(c, s, s');
  }

  // ---------- runs ----------

  datatype Operation =
    | Save(pk: Pk, record: Record)
    | Delete(pk: Pk)
    | Refresh(pk: Pk, backendOk: bool)
    | Get(text: string, backendOk: bool)
    | GetOther(kwargs: seq<(string, string)>, record: Record)    // `get_cached` by other arguments
    | FilterCached(kwargs: seq<(string, string)>, records: seq<Record>)
    | Expire(key: string)

  /** One operation; the invalidations of writes arrive, reads may find the backend down. */
  function Apply(c: Settings, s: State, op: Operation): State {
    match op
    case Save(pk, r) => Saved(c, s, pk, r, true)
    case Delete(pk) => Deleted(c, s, pk, true)
    case Refresh(pk, ok) => Refreshed(c, s, pk, ok)
    case Get(text, ok) => Looked(c, s, text, ok)
    case GetOther(kwargs, r) =>
      if c.ttl > 0 then s.(cache := s.cache[ModelKey(c.cls, "get", kwargs) := One(Projection(c, r))]) else s
    case FilterCached(kwargs, rs) =>
      if c.ttl > 0 then
        s.(cache := s.cache[ModelKey(c.cls, "filter", kwargs) :=
          Many(seq(|rs|, i requires 0 <= i < |rs| => Projection(c, rs[i])))])
      else s
    case Expire(key) => s.(cache := s.cache - {key})
  }

  /** Lookups by the primary key alone are `Get`, not `GetOther`. */
  predicate Proper(c: Settings, op: Operation) {
    op.GetOther? ==> !(|op.kwargs| == 1 && op.kwargs[0].0 == c.pkAttr)
  }

  /** Lookups by primary key spell it canonically, or as the given text. */
  ghost predicate SpellsOnly(c: Settings, ops: seq<Operation>, text: string) {
    forall i :: 0 <= i < |ops| ==>
      Proper(c, ops[i]) && (ops[i].Get? ==> Canonical(c, ops[i].text) || ops[i].text == text)
  }

  ghost predicate SpellsCanonically(c: Settings, ops: seq<Operation>) {
    forall i :: 0 <= i < |ops| ==> Proper(c, ops[i]) && (ops[i].Get? ==> Canonical(c, ops[i].text))
  }

  lemma OperationKeepsSound(c: Settings, s: State, op: Operation)
    requires Sound(c, s) && c.ttl > 0 && Lawful(c) && Proper(c, op) && (op.Get? ==> Canonical(c, op.text))
    ensures Sound(c, Apply(c, s, op))
  {
    match op
    case Save(pk, r) => SaveKeepsSound(c, s, pk, r);
    case Delete(pk) => DeleteKeepsSound(c, s, pk);
    case Refresh(pk, ok) =>
      if pk in s.rows && ok {
        assert c.resolve(c.spell(pk)) == pk;
        StoreKeepsSound(c, s, c.spell(pk), pk);
      }
    case Get(text, ok) =>
      if Looked(c, s, text, ok) != s {
        StoreKeepsSound(c, s, text, c.resolve(text));
      }
    case GetOther(kwargs, r) => StoreElsewhere(c, s, "get", kwargs, One(Projection(c, r)));
    case FilterCached(kwargs, rs) =>
      StoreElsewhere(c, s, "filter", kwargs, Many(seq(|rs|, i requires 0 <= i < |rs| => Projection(c, rs[i]))));
    case Expire(key) => ShrinkingKeepsSound(c, s, s.(cache := s.cache - {key}));
  }

  function Run(c: Settings, s: State, ops: seq<Operation>): State
    decreases |ops|
  {
    if ops == [] then s else Run(c, Apply(c, s, ops[0]), ops[1..])
  }

  lemma {:induction false} RunsStaySound(c: Settings, s: State, ops: seq<Operation>)
    requires Sound(c, s) && c.ttl > 0 && Lawful(c) && SpellsCanonically(c, ops)
    ensures Sound(c, Run(c, s, ops))
    decreases |ops|
  {
    if ops != [] {
      OperationKeepsSound(c, s, ops[0]);
      RunsStaySound(c, Apply(c, s, ops[0]), ops[1..]);
    }
  }

  /** The table as the writes alone leave it. */
  function Written(rows: map<Pk, Record>, ops: seq<Operation>): map<Pk, Record>
    decreases |ops|
  {
    if ops == [] then rows
    else
      match ops[0]
      case Save(pk, r) => Written(rows[pk := r], ops[1..])
      case Delete(pk) => Written(rows - {pk}, ops[1..])
      case _ => Written(rows, ops[1..])
  }

  lemma {:induction false} RunWritesRows(c: Settings, s: State, ops: seq<Operation>)
    ensures Run(c, s, ops).rows == Written(s.rows, ops)
    decreases |ops|
  {
    if ops != [] {
      RunWritesRows(c, Apply(c, s, ops[0]), ops[1..]);
    }
  }

  /** A read after the run, from an empty cache, shows the table that the writes alone leave. */
  ghost predicate CurrentAfter(c: Settings, rows: map<Pk, Record>, ops: seq<Operation>, text: string, backendOk: bool) {
    Shows(c, Written(rows, ops), text, Answer(c, Run(c, State(rows, map[]), ops), text, backendOk))
  }

  /**
   After any run of saves, deletes, refreshes, reads, list reads and expiries whose lookups by
   primary key are spelled canonically, a read by primary key in any spelling answers with
   the row the writes alone would have left, or with nothing.
   */
  lemma ReadsAfterRunAreCurrent(c: Settings, rows: map<Pk, Record>, ops: seq<Operation>, text: string, backendOk: bool)
    requires c.ttl > 0 && Lawful(c) && SpellsCanonically(c, ops)
    ensures CurrentAfter(c, rows, ops, text, backendOk)
  {
    var s0 := State(rows, map[]);
    assert Sound(c, s0) by {
      assert forall q :: !IsCached(c, s0, q);
    }
    RunsStaySound(c, s0, ops);
    RunWritesRows(c, s0, ops);
    AnswerCurrentIff(c, Run(c, s0, ops), text);
    assert EntryFresh(c, Run(c, s0, ops), text);
  }

  // ---------- field by field ----------

  ghost predicate HasCachedFieldsOnly(c: Settings, r: Record) {
    forall f :: f in r ==> c.cachedFields == {} || f in c.cachedFields
  }

  /** Every record in the cache, in a list or not, has cached fields only. */
  ghost predicate OnlyCachedFields(c: Settings, s: State) {
    forall key :: key in s.cache ==>
      match s.cache[key]
      case One(r) => HasCachedFieldsOnly(c, r)
      case Many(rs) => forall i :: 0 <= i < |rs| ==> HasCachedFieldsOnly(c, rs[i])
  }

  lemma OperationStoresCachedFields(c: Settings, s: State, op: Operation)
    requires OnlyCachedFields(c, s)
    ensures OnlyCachedFields(c, Apply(c, s, op))
  {
    forall r: Record ensures HasCachedFieldsOnly(c, Projection(c, r)) {
    }
  }

  lemma {:induction false} RunsStoreCachedFields(c: Settings, s: State, ops: seq<Operation>)
    requires OnlyCachedFields(c, s)
    ensures OnlyCachedFields(c, Run(c, s, ops))
    decreases |ops|
  {
    if ops != [] {
      OperationStoresCachedFields(c, s, ops[0]);
      RunsStoreCachedFields(c, Apply(c, s, ops[0]), ops[1..]);
    }
  }

  /** The row, as far as `cached` says; `hit` answers leave out the fields that are not cached. */
  ghost predicate ShowsRow(c: Settings, row: Record, shown: Record, hit: bool) {
    && (forall f :: f in row && (c.cachedFields == {} || f in c.cachedFields) ==> f in shown)
    && (forall f :: f in shown ==> f in row && shown[f] == row[f])
    && (hit ==> HasCachedFieldsOnly(c, shown))
    && (!hit ==> shown == row)
  }

  /**
   After any run with canonical spellings a lookup answers, field by field, with the row that
   the writes alone would have left: all of it when it comes from the database, exactly its
   cached fields when it comes from the cache, and nothing iff the row is gone.
   */
  lemma AnswersFieldByField(c: Settings, rows: map<Pk, Record>, ops: seq<Operation>, text: string, backendOk: bool)
    requires c.ttl > 0 && Lawful(c) && SpellsCanonically(c, ops)
    ensures var s, pk := Run(c, State(rows, map[]), ops), c.resolve(text);
      var answer := Answer(c, s, text, backendOk);
      && answer.Ok? && (answer.value.Some? <==> pk in Written(rows, ops))
      && (answer.value.Some? ==>
        ShowsRow(c, Written(rows, ops)[pk], answer.value.value, Hit(c, s, text, backendOk)))
  {
    var s0 := State(rows, map[]);
    ReadsAfterRunAreCurrent(c, rows, ops, text, backendOk);
    RunsStoreCachedFields(c, s0, ops);
    RunWritesRows(c, s0, ops);
  }

  /** After a lookup of a stored row the next one is answered from the cache, with its cached fields. */
  lemma LookupFillsCache(c: Settings, s: State, text: string)
    requires c.ttl > 0 && c.resolve(text) in s.rows && !IsCached(c, s, text)
    ensures var s' := Looked(c, s, text, true);
      && s'.rows == s.rows && Hit(c, s', text, true)
      && Answer(c, s', text, true).Ok? && Answer(c, s', text, true).value.Some?
      && ShowsRow(c, s.rows[c.resolve(text)], Answer(c, s', text, true).value.value, true)
  {
  }

  /** After a refresh a lookup by the printed key is answered from the cache, as the row is now. */
  lemma RefreshFillsCache(c: Settings, s: State, pk: Pk)
    requires c.ttl > 0 && pk in s.rows && Lawful(c)
    ensures var s', text := Refreshed(c, s, pk, true), c.spell(pk);
      && s'.rows == s.rows && Hit(c, s', text, true)
      && Answer(c, s', text, true).Ok? && Answer(c, s', text, true).value.Some?
      && ShowsRow(c, s.rows[pk], Answer(c, s', text, true).value.value, true)
  {
  }

  /** With `_cache_ttl <= 0` every lookup reads the table, whatever the cache holds, and a missing row is an error. */
  lemma CachingOffReadsTable(c: Settings, s: State, ops: seq<Operation>, text: string, backendOk: bool)
    requires c.ttl <= 0
    ensures var rows, pk := Written(s.rows, ops), c.resolve(text);
      Answer(c, Run(c, s, ops), text, backendOk) == if pk in rows then Ok(Some(rows[pk])) else Err(DoesNotExist)
  {
    RunWritesRows(c, s, ops);
  }

  /** Nothing but an expiry touches the cache then. */
  lemma CachingOffKeepsCache(c: Settings, s: State, op: Operation)
    requires c.ttl <= 0 && !op.Expire?
    ensures Apply(c, s, op).cache == s.cache
  {
  }

  /** Two records that a cached field tells apart. */
  lemma TwoRecords(c: Settings) returns (r: Record, r': Record)
    ensures !AgreeOnCached(c, Projection(c, r), r')
  {
    var f := "";
    if c.cachedFields != {} {
      f :| f in c.cachedFields;
    }
    r, r' := map[f := "0"], map[f := "1"];
    assert f in Projection(c, r) && Projection(c, r)[f] != r'[f];
  }

  /** Cache a row under another spelling, then save it: the other spelling keeps showing the old row. */
  lemma OtherSpellingGoesStale(c: Settings, text: string, r: Record, r': Record)
    requires c.ttl > 0 && !Canonical(c, text)
    ensures var pk := c.resolve(text);
      var s := Run(c, State(map[pk := r], map[]), [Get(text, true), Save(pk, r')]);
      s.rows == map[pk := r'] && Answer(c, s, text, true) == Ok(Some(Projection(c, r)))
  {
    var pk := c.resolve(text);
    var s0 := State(map[pk := r], map[]);
    var get, save := Get(text, true), Save(pk, r');
    var s1 := Apply(c, s0, get);
    assert s1 == State(map[pk := r], map[TextKey(c, text) := One(Projection(c, r))]);
    var s2 := Apply(c, s1, save);
    TextKeysApart(c, text, c.spell(pk));
    assert s2.cache == s1.cache;
    RunTwo(c, s0, get, save);
  }

  lemma RunTwo(c: Settings, s: State, a: Operation, b: Operation)
    ensures Run(c, s, [a, b]) == Apply(c, Apply(c, s, a), b)
  {
    assert [a, b][1..] == [b] && [b][1..] == [];
    assert Run(c, Apply(c, s, a), [b]) == Run(c, Apply(c, Apply(c, s, a), b), []);
  }

  /** A text by which reads are current after every run that uses no other odd spelling. */
  ghost predicate AlwaysCurrent(c: Settings, text: string) {
    forall rows, ops :: SpellsOnly(c, ops, text) ==> CurrentAfter(c, rows, ops, text, true)
  }

  /** Reads by a text are current after every run iff the text is spelled as its key prints. */
  lemma AlwaysCurrentIffCanonical(c: Settings, text: string)
    requires c.ttl > 0 && Lawful(c)
    ensures AlwaysCurrent(c, text) <==> Canonical(c, text)
  {
    if Canonical(c, text) {
      forall rows, ops | SpellsOnly(c, ops, text) ensures CurrentAfter(c, rows, ops, text, true) {
        ReadsAfterRunAreCurrent(c, rows, ops, text, true);
      }
    } else {
      var r, r' := TwoRecords(c);
      var pk := c.resolve(text);
      OtherSpellingGoesStale(c, text, r, r');
      NotCurrent(c, map[pk := r], [Get(text, true), Save(pk, r')], text, r);
    }
  }

  lemma NotCurrent(c: Settings, rows: map<Pk, Record>, ops: seq<Operation>, text: string, stale: Record)
    requires SpellsOnly(c, ops, text)
    requires var s := Run(c, State(rows, map[]), ops);
      && Answer(c, s, text, true) == Ok(Some(Projection(c, stale)))
      && c.resolve(text) in s.rows && !AgreeOnCached(c, Projection(c, stale), s.rows[c.resolve(text)])
    ensures !AlwaysCurrent(c, text)
  {
    RunWritesRows(c, State(rows, map[]), ops);
    assert !CurrentAfter(c, rows, ops, text, true);
  }
}
