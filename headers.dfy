/**
 * The header table (`Headers`): one map keyed by the lower-cased name for
 * lookups, one keyed by the name exactly as given for writing headers out.
 */
module HeaderTable {
  import opened Wrappers
  import opened Ascii
  import opened Decimal

  const CONTENT_LENGTH_HEADER := "Content-Length"
  const CONNECTION_HEADER := "Connection"

  /** `HTTPError`, less its unused `Unknown` variant. */
  datatype HttpError = ParsingError(header: string) | MissingHeader(header: string)

  /** Case-insensitive lookup in a map keyed by lower-cased names. */
  function LookupIn(kv: map<string, string>, key: string): (r: Option<string>)
    ensures r.Some? <==> LowerStr(key) in kv
    ensures r.Some? ==> r.value == kv[LowerStr(key)]
  {
    if LowerStr(key) in kv then Some(kv[LowerStr(key)]) else None
  }

  /**
   * The declared body length: absent is a `ParsingError`, present but not a
   * `usize` is a `MissingHeader` (the source names the two this way round).
   */
  function ContentLengthIn(kv: map<string, string>): (r: Result<nat, HttpError>)
    ensures LookupIn(kv, CONTENT_LENGTH_HEADER).None? <==> r == Err(ParsingError(CONTENT_LENGTH_HEADER))
    ensures r.Ok? <==> LookupIn(kv, CONTENT_LENGTH_HEADER).Some? && ParseUsize(LookupIn(kv, CONTENT_LENGTH_HEADER).value).Some?
    ensures r.Ok? ==> ParseUsize(LookupIn(kv, CONTENT_LENGTH_HEADER).value) == Some(r.value) && r.value <= USIZE_MAX
    ensures r.Err? && LookupIn(kv, CONTENT_LENGTH_HEADER).Some? ==> r == Err(MissingHeader(CONTENT_LENGTH_HEADER))
  {
    match LookupIn(kv, CONTENT_LENGTH_HEADER)
    case Some(length) =>
      (match ParseUsize(length)
       case Some(l) => Ok(l)
       case None => Err(MissingHeader(CONTENT_LENGTH_HEADER)))
    case None => Err(ParsingError(CONTENT_LENGTH_HEADER))
  }

  class Headers {
    var kv: map<string, string>
    var raw: map<string, string>

    /**
     * Every written name can be looked up, and every lookup entry is the
     * value of some written name that folds to it.
     */
    ghost predicate Valid()
      reads this
    {
      && (forall k :: k in raw ==> LowerStr(k) in kv)
      && (forall lk :: lk in kv ==> exists k :: k in raw && LowerStr(k) == lk && raw[k] == kv[lk])
    }

    /** `Headers::new`: both maps empty. */
    constructor ()
      ensures Valid()
      ensures kv == map[] && raw == map[]
    {
      kv := map[];
      raw := map[];
    }

    /**
     * `add`: the last write wins under the folded name for lookups and under
     * the exact name for writing out; names differing only in case stay
     * separate entries of `raw`.
     */
    method Add(key: string, value: string)
      requires Valid()
      modifies this
      ensures Valid()
      ensures kv == old(kv)[LowerStr(key) := value]
      ensures raw == old(raw)[key := value]
    {
      ghost var kv0, raw0 := kv, raw;
      kv := kv[LowerStr(key) := value];
      raw := raw[key := value];
      forall lk | lk in kv
        ensures exists k :: k in raw && LowerStr(k) == lk && raw[k] == kv[lk]
      {
        if lk == LowerStr(key) {
          assert key in raw && raw[key] == kv[lk];
        } else {
          var k :| k in raw0 && LowerStr(k) == lk && raw0[k] == kv0[lk];
          assert k != key;
          assert k in raw && raw[k] == kv[lk];
        }
      }
    }

    /** `get`: case-insensitive; finds a value exactly when some written name folds to the same key, and it is that name's value. */
    function Get(key: string): (r: Option<string>)
      reads this
      requires Valid()
      ensures r.Some? <==> exists k :: k in raw && LowerStr(k) == LowerStr(key)
      ensures r.Some? ==> exists k :: k in raw && LowerStr(k) == LowerStr(key) && raw[k] == r.value
    {
      LookupIn(kv, key)
    }

    /** `get_content_length`. */
    function GetContentLength(): (r: Result<nat, HttpError>)
      reads this
      requires Valid()
      ensures r == ContentLengthIn(kv)
      ensures r == Err(ParsingError(CONTENT_LENGTH_HEADER)) <==> Get(CONTENT_LENGTH_HEADER).None?
    {
      ContentLengthIn(kv)
    }

    /** `iter`: the written entries, in no particular order. */
    function Iter(): (items: set<(string, string)>)
      reads this
      ensures forall k, v :: (k, v) in items <==> k in raw && raw[k] == v
    {
      raw.Items
    }
  }

  /**
   * What `get` sees after `add(key, value)`: `value` under every name that
   * folds like `key`, and the old answer under every other name.
   */
  lemma LookupAfterAdd(kv: map<string, string>, key: string, value: string, name: string)
    ensures LowerStr(name) == LowerStr(key) ==> LookupIn(kv[LowerStr(key) := value], name) == Some(value)
    ensures LowerStr(name) != LowerStr(key) ==> LookupIn(kv[LowerStr(key) := value], name) == LookupIn(kv, name)
  {
  }

  /** The lookup map after `add` of each pair in turn, starting empty. */
  function KvOf(pairs: seq<(string, string)>): map<string, string> {
    if pairs == [] then map[]
    else KvOf(pairs[..|pairs| - 1])[LowerStr(pairs[|pairs| - 1].0) := pairs[|pairs| - 1].1]
  }

  /** The written-out map after `add` of each pair in turn, starting empty. */
  function RawOf(pairs: seq<(string, string)>): map<string, string> {
    if pairs == [] then map[]
    else RawOf(pairs[..|pairs| - 1])[pairs[|pairs| - 1].0 := pairs[|pairs| - 1].1]
  }

  /** `i` is the last position in `pairs` whose name is exactly `name`. */
  predicate LastNamed(pairs: seq<(string, string)>, i: nat, name: string) {
    && i < |pairs| && pairs[i].0 == name
    && forall j :: i < j < |pairs| ==> pairs[j].0 != name
  }

  /** `i` is the last position in `pairs` whose name folds to the lookup key `lk`. */
  predicate LastFoldingTo(pairs: seq<(string, string)>, i: nat, lk: string) {
    && i < |pairs| && LowerStr(pairs[i].0) == lk
    && forall j :: i < j < |pairs| ==> LowerStr(pairs[j].0) != lk
  }

  /** Written-out entries: a name is present iff it was added, with the value of its last add. */
  lemma {:induction false} RawOfLastWins(pairs: seq<(string, string)>, name: string)
    ensures name in RawOf(pairs) <==> exists i :: 0 <= i < |pairs| && pairs[i].0 == name
    ensures forall i: nat :: LastNamed(pairs, i, name) ==> RawOf(pairs)[name] == pairs[i].1
    decreases |pairs|
  {
    if pairs != [] {
      var init := pairs[..|pairs| - 1];
      RawOfLastWins(init, name);
      forall i | 0 <= i < |init| ensures init[i] == pairs[i] { }
      forall i: nat | LastNamed(pairs, i, name) && i < |init|
        ensures LastNamed(init, i, name)
      {
      }
    }
  }

  /**
   * Lookups: a key is present iff some added name folds to it, and it holds
   * the value of the last such add.
   */
  lemma {:induction false} KvOfLastWins(pairs: seq<(string, string)>, lk: string)
    ensures lk in KvOf(pairs) <==> exists i :: 0 <= i < |pairs| && LowerStr(pairs[i].0) == lk
    ensures forall i: nat :: LastFoldingTo(pairs, i, lk) ==> KvOf(pairs)[lk] == pairs[i].1
    decreases |pairs|
  {
    if pairs != [] {
      var init := pairs[..|pairs| - 1];
      KvOfLastWins(init, lk);
      forall i | 0 <= i < |init| ensures init[i] == pairs[i] { }
      forall i: nat | LastFoldingTo(pairs, i, lk) && i < |init|
        ensures LastFoldingTo(init, i, lk)
      {
      }
    }
  }

  /** Two names differing only in case share one lookup entry but are written out twice. */
  lemma CaseVariantsCollapse(k1: string, v1: string, k2: string, v2: string)
    requires k1 != k2 && LowerStr(k1) == LowerStr(k2)
    ensures KvOf([(k1, v1), (k2, v2)]) == map[LowerStr(k1) := v2]
    ensures RawOf([(k1, v1), (k2, v2)]) == map[k1 := v1, k2 := v2]
  {
    var pairs := [(k1, v1), (k2, v2)];
    assert pairs[..1] == [(k1, v1)] && pairs[..1][..0] == [];
    assert KvOf(pairs[..1]) == map[LowerStr(k1) := v1];
    assert RawOf(pairs[..1]) == map[k1 := v1];
  }

  /**
   * Which of two case variants `get` finds depends on the order they were
   * added in, while the written-out map does not: a table read back in a
   * different order keeps `raw` but may answer lookups differently.
   */
  lemma AddOrderDecidesLookup(k1: string, v1: string, k2: string, v2: string)
    requires k1 != k2 && LowerStr(k1) == LowerStr(k2) && v1 != v2
    ensures RawOf([(k1, v1), (k2, v2)]) == RawOf([(k2, v2), (k1, v1)])
    ensures LookupIn(KvOf([(k1, v1), (k2, v2)]), k1) == Some(v2)
    ensures LookupIn(KvOf([(k2, v2), (k1, v1)]), k1) == Some(v1)
  {
    CaseVariantsCollapse(k1, v1, k2, v2);
    CaseVariantsCollapse(k2, v2, k1, v1);
  }
}
