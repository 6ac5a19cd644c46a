/** The header table of `Headers`: a map from header name to the list of its values, created
    lazily by the first update. Every update and lookup canonicalises the name first (see
    HeaderKey), except that a table handed to the constructor is stored as given. */
module Headers {
  import opened Wrappers
  import opened HeaderKey

  /** A Java `Map<String, List<String>>`; a list may be null (None) in a map supplied by the
      caller. */
  type Table = map<string, Option<seq<string>>>

  /** The outcome of an operation that canonicalises a key: `Throws` is the
      StringIndexOutOfBoundsException of `upperCaseFirst`. */
  datatype Result<T> = Ok(value: T) | Throws

  /** Keys stored in canonical spelling. The empty key, which only a key made of dashes
      produces, is admitted although it does not canonicalise again. */
  ghost predicate AllCanonical(m: Table)
  {
    forall k :: k in m ==> k == "" || CanonKey(k) == Some(k)
  }

  // ---------------------------------------------------------------------------
  // Lookups (`getHeaderKeySet`, `getHeaderLength`, `getHeaders`, `getHeader`)

  function HeaderKeySet(hs: Option<Table>): (ks: set<string>)
    ensures forall k :: k in ks <==> hs.Some? && k in hs.value
  {
    if hs.None? then {} else hs.value.Keys
  }

  function HeaderLength(hs: Option<Table>): (n: nat)
    ensures n == |HeaderKeySet(hs)|
    ensures hs.None? ==> n == 0
  {
    if hs.None? then 0 else |hs.value|
  }

  /** All values under `key`: an empty list when no table exists or the key is absent, the
      stored list (or null) otherwise. */
  function HeadersOf(hs: Option<Table>, key: string): (r: Result<Option<seq<string>>>)
    ensures r.Throws? <==> hs.Some? && CanonKey(key).None?
    ensures r.Ok? && r.value != Some([]) ==>
      CanonKey(key).Some? && CanonKey(key).value in HeaderKeySet(hs)
  {
    if hs.None? then Ok(Some([]))
    else match CanonKey(key)
      case None => Throws
      case Some(k) => if k !in hs.value then Ok(Some([])) else Ok(hs.value[k])
  }

  /** The first value under `key`, or null when there is none. */
  function HeaderOf(hs: Option<Table>, key: string): (r: Result<Option<string>>)
    ensures r == match HeadersOf(hs, key)
      case Throws => Throws
      case Ok(None) => Ok(None)
      case Ok(Some(vs)) => Ok(if vs == [] then None else Some(vs[0]))
  {
    if hs.None? then Ok(None)
    else match CanonKey(key)
      case None => Throws
      case Some(k) =>
        if k !in hs.value then Ok(None)
        else
          var values := hs.value[k];
          if values.None? || values.value == [] then Ok(None) else Ok(Some(values.value[0]))
  }

  /** The table as it stands, or the empty table that the first update creates. */
  function OrEmpty(hs: Option<Table>): Table
  {
    if hs.None? then map[] else hs.value
  }

  /** The values stored under `k`, reading an absent key or a null list as empty. */
  function StoredValues(m: Table, k: string): seq<string>
  {
    if k in m && m[k].Some? then m[k].value else []
  }

  class HeaderTable {
    var headerSet: Option<Table>

    /** `new Headers()`: no table yet. */
    constructor ()
      ensures headerSet == None
    {
      headerSet := None;
    }

    /** `new Headers(map)`: the caller's table is stored without canonicalising its keys. */
    constructor FromMap(m: Table)
      ensures headerSet == Some(m)
    {
      headerSet := Some(m);
    }

    /** `setHeader(key, value)`: the canonical key ends up holding exactly `[value]`, whether
        it was absent, null, single- or multi-valued. The table is created before the key is
        canonicalised, so a key that throws still leaves an (empty) table behind. */
    method SetHeader(key: string, value: string) returns (r: Result<()>)
      modifies this
      ensures r.Throws? <==> CanonKey(key).None?
      ensures r.Throws? ==> headerSet == Some(OrEmpty(old(headerSet)))
      ensures r.Ok? ==> headerSet == Some(OrEmpty(old(headerSet))[CanonKey(key).value := Some([value])])
    {
      if headerSet.None? {
        headerSet := Some(map[]);
      }
      var k := UpperCaseFirst(key);
      if k.None? {
        return Throws;
      }
      var m := headerSet.value;
      var key' := k.value;
      var headers1 := if key' in m then m[key'] else None;
      if headers1.None? {
        headerSet := Some(m[key' := Some([value])]);
      } else {
        var headers2 := headers1.value;
        if |headers2| == 1 {
          headers2 := headers2[0 := value];
        } else {
          headers2 := [];
          headers2 := headers2 + [value];
        }
        assert headers2 == [value];
        headerSet := Some(m[key' := Some(headers2)]);
      }
      r := Ok(());
    }

    /** `addHeader(key, value)`: `value` goes after the values already stored under the
        canonical key, or starts a one-element list. */
    method AddHeader(key: string, value: string) returns (r: Result<()>)
      modifies this
      ensures r.Throws? <==> CanonKey(key).None?
      ensures r.Throws? ==> headerSet == Some(OrEmpty(old(headerSet)))
      ensures r.Ok? ==>
        var m := OrEmpty(old(headerSet));
        var k := CanonKey(key).value;
        headerSet == Some(m[k := Some(StoredValues(m, k) + [value])])
    {
      if headerSet.None? {
        headerSet := Some(map[]);
      }
      var k := UpperCaseFirst(key);
      if k.None? {
        return Throws;
      }
      var m := headerSet.value;
      var key' := k.value;
      assert m == OrEmpty(old(headerSet));
      var headers1 := if key' in m then m[key'] else None;
      if headers1.None? {
        assert StoredValues(m, key') + [value] == [value];
        headerSet := Some(m[key' := Some([value])]);
      } else {
        assert StoredValues(m, key') == headers1.value;
        headerSet := Some(m[key' := Some(headers1.value + [value])]);
      }
      r := Ok(());
    }

    /** `setHeader(key, values)`: the canonical key holds a copy of `values`, in order,
        replacing whatever was there. */
    method SetHeaderValues(key: string, values: seq<string>) returns (r: Result<()>)
      modifies this
      ensures r.Throws? <==> CanonKey(key).None?
      ensures r.Throws? ==> headerSet == Some(OrEmpty(old(headerSet)))
      ensures r.Ok? ==> headerSet == Some(OrEmpty(old(headerSet))[CanonKey(key).value := Some(values)])
    {
      if headerSet.None? {
        headerSet := Some(map[]);
      }
      var k := UpperCaseFirst(key);
      if k.None? {
        return Throws;
      }
      var m := headerSet.value;
      var key' := k.value;
      var headers1 := if key' in m then m[key'] else None;
      if headers1.None? {
        headerSet := Some(m[key' := Some(values)]);
      } else {
        headerSet := Some(m[key' := Some(values)]);
      }
      r := Ok(());
    }

    /** `removeHeader(key)`: deletes the canonical key; without a table it does nothing, not
        even canonicalise. */
    method RemoveHeader(key: string) returns (r: Result<()>)
      modifies this
      ensures old(headerSet).None? ==> r.Ok? && headerSet == None
      ensures old(headerSet).Some? ==> (r.Throws? <==> CanonKey(key).None?)
      ensures old(headerSet).Some? && r.Throws? ==> headerSet == old(headerSet)
      ensures old(headerSet).Some? && r.Ok? ==> headerSet == Some(old(headerSet).value - {CanonKey(key).value})
    {
      if headerSet.Some? {
        var k := UpperCaseFirst(key);
        if k.None? {
          return Throws;
        }
        headerSet := Some(headerSet.value - {k.value});
      }
      r := Ok(());
    }
  }

  // ---------------------------------------------------------------------------
  // What the updates mean for later lookups

  /** After `setHeader(key, value)` every spelling of `key` finds exactly `[value]`, and every
      other key reads as before. */
  lemma LookupAfterSet(m: Table, key: string, value: string, other: string)
    requires CanonKey(key).Some?
    ensures var m' := m[CanonKey(key).value := Some([value])];
      HeadersOf(Some(m'), other) ==
        if CanonKey(other) == CanonKey(key) then Ok(Some([value])) else HeadersOf(Some(m), other)
    ensures var m' := m[CanonKey(key).value := Some([value])];
      HeaderOf(Some(m'), other) ==
        if CanonKey(other) == CanonKey(key) then Ok(Some(value)) else HeaderOf(Some(m), other)
  {
  }

  /** After `addHeader(key, value)` the values under `key` are the old ones followed by
      `value`; every other key reads as before. */
  lemma LookupAfterAdd(m: Table, key: string, value: string, other: string)
    requires CanonKey(key).Some?
    ensures var k := CanonKey(key).value;
      HeadersOf(Some(m[k := Some(StoredValues(m, k) + [value])]), other) ==
        if CanonKey(other) == CanonKey(key) then Ok(Some(StoredValues(m, k) + [value]))
        else HeadersOf(Some(m), other)
    ensures var k := CanonKey(key).value;
      HeadersOf(Some(m), key) == Ok(Some(StoredValues(m, k))) || HeadersOf(Some(m), key) == Ok(None)
  {
  }

  /** After `removeHeader(key)` every spelling of `key` reads as absent: `getHeader` gives
      null and `getHeaders` an empty list; every other key reads as before. */
  lemma LookupAfterRemove(m: Table, key: string, other: string)
    requires CanonKey(key).Some?
    ensures var m' := m - {CanonKey(key).value};
      && HeadersOf(Some(m'), other) ==
        (if CanonKey(other) == CanonKey(key) then Ok(Some([])) else HeadersOf(Some(m), other))
      && HeaderOf(Some(m'), other) ==
        (if CanonKey(other) == CanonKey(key) then Ok(None) else HeaderOf(Some(m), other))
  {
  }

  /** Names that differ only in letter case address the same entry. */
  lemma LookupIgnoresCase(hs: Option<Table>, a: string, b: string)
    requires LowerStr(a) == LowerStr(b)
    ensures HeadersOf(hs, a) == HeadersOf(hs, b)
    ensures HeaderOf(hs, a) == HeaderOf(hs, b)
  {
    CanonKeyCaseInsensitive(a, b);
  }

  /** Storing under a canonical key keeps every key of the table canonical. */
  lemma StoreKeepsCanonical(m: Table, key: string, values: Option<seq<string>>)
    requires AllCanonical(m) && CanonKey(key).Some?
    ensures AllCanonical(m[CanonKey(key).value := values])
  {
    var k := CanonKey(key).value;
    if k != "" {
      CanonKeyIdempotent(key);
    }
  }

  /** In a table built through the setters, each stored key is found under its own spelling
      (the empty key aside, which throws on lookup). */
  lemma StoredKeyFound(m: Table, k: string)
    requires AllCanonical(m) && k in m && k != ""
    ensures HeadersOf(Some(m), k) == Ok(m[k])
  {
  }
}
