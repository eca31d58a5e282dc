/** The director's config-server client. The enabled client replaces
    `((key))` placeholders in a manifest by values fetched from the config
    server, and resolves a single property against the server (generating a
    password when asked to); the disabled client passes everything through.

    The HTTP client is an abstract lookup: a GET answers found (with the
    value), not found, or another status; a POST that asks the server to
    generate a password answers success or not. Values are immutable here, so
    the deep copy `interpolate` makes of its input is the input itself, and
    the input is never modified. */
module ConfigServer {
  import opened Results
  import opened Values
  import Text

  datatype Response = Found(value: Value) | NotFound | ServerError(code: string, reason: string)

  datatype HttpClient = HttpClient(get: string -> Response, post: string -> bool)

  /** The errors the client raises. `MissingKey` and `MissingKeys` are both
      `ConfigServerMissingKeys`, raised for one key by a lookup and for all
      missing keys by `interpolate`. */
  datatype ConfigError =
    | MissingKey(key: string)
    | MissingKeys(keys: seq<string>)
    | UnknownError(code: string, reason: string)
    | PasswordGenerationError

  predicate IsMissingKeys(e: ConfigError)
  {
    e.MissingKey? || e.MissingKeys?
  }

  /** The text of each error; `reason` stands for the dumped HTTP status message. */
  function Message(e: ConfigError): string
  {
    match e
    case MissingKey(k) => "Failed to find key '" + k + "' in the config server"
    case MissingKeys(ks) => "Failed to find keys in the config server: " + Text.Join(ks, ", ")
    case UnknownError(code, reason) => "Unknown config server error: " + code + "  " + reason
    case PasswordGenerationError => "Config Server failed to generate password"
  }

  /** One entry of the replacement map: the key a placeholder names and the
      path at which the placeholder sits. */
  datatype Location = Location(key: string, path: Path)

  /** What `fetch_config_values` hands back: the values found and the keys
      the server did not know, in the order they were asked for. */
  datatype Fetched = Fetched(values: map<string, Value>, invalidKeys: seq<string>)

  /** The outcome of `prepare_and_get_property`: the property's value, and the
      key for which a password was generated, if one was. */
  datatype Property = Property(value: Value, generatedPassword: Option<string>)

  // ---------------------------------------------------------------- lookups

  /** `get_value_for_key`: the value on OK, `MissingKey` on not found, and
      `UnknownError` on any other status. */
  function GetValueForKey(http: HttpClient, key: string): (r: Result<Value, ConfigError>)
    ensures r.Success? <==> http.get(key).Found?
    ensures r.Success? ==> r.value == http.get(key).value
    ensures r.Failure? && IsMissingKeys(r.error) <==> http.get(key).NotFound?
    ensures http.get(key).NotFound? ==> r == Failure(MissingKey(key))
    ensures http.get(key).ServerError? ==> r == Failure(UnknownError(http.get(key).code, http.get(key).reason))
  {
    match http.get(key)
    case Found(v) => Success(v)
    case NotFound => Failure(MissingKey(key))
    case ServerError(code, reason) => Failure(UnknownError(code, reason))
  }

  /** The texts of a lookup's errors. */
  lemma LookupMessages(http: HttpClient, key: string)
    ensures http.get(key).NotFound? ==>
              Message(GetValueForKey(http, key).error) == "Failed to find key '" + key + "' in the config server"
    ensures http.get(key).ServerError? ==>
              Message(GetValueForKey(http, key).error)
              == "Unknown config server error: " + http.get(key).code + "  " + http.get(key).reason
  {
  }

  /** The text `interpolate` raises for the keys the server did not know:
      the missing keys in the order they were asked for, comma-separated. */
  lemma MissingKeysMessage(missing: seq<string>)
    ensures Message(MissingKeys(missing)) == "Failed to find keys in the config server: " + Text.Join(missing, ", ")
  {
  }

  /** `key_exists?`: a lookup whose missing-key error becomes `false`; any
      other error is not caught and propagates. */
  function KeyExists(http: HttpClient, key: string): (r: Result<bool, ConfigError>)
    ensures r == Success(true) <==> GetValueForKey(http, key).Success?
    ensures r == Success(false) <==> GetValueForKey(http, key).Failure? && IsMissingKeys(GetValueForKey(http, key).error)
    ensures r.Failure? ==> GetValueForKey(http, key) == Failure(r.error) && !IsMissingKeys(r.error)
  {
    match GetValueForKey(http, key)
    case Success(_) => Success(true)
    case Failure(e) => if IsMissingKeys(e) then Success(false) else Failure(e)
  }

  // ----------------------------------------------- reference definitions

  /** The position of the first occurrence of `k` in `keys`. */
  function FirstIndex(keys: seq<string>, k: string): (n: nat)
    requires k in keys
    ensures n < |keys| && keys[n] == k
    ensures forall j :: 0 <= j < n ==> keys[j] != k
  {
    if keys[0] == k then 0 else 1 + FirstIndex(keys[1..], k)
  }

  /** A key's first occurrence in a prefix is its first occurrence in the whole. */
  lemma FirstIndexOfPrefix(keys: seq<string>, n: nat, k: string)
    requires n <= |keys| && k in keys[..n]
    ensures k in keys && FirstIndex(keys, k) == FirstIndex(keys[..n], k)
  {
    var p := FirstIndex(keys[..n], k);
    assert keys[p] == k;
  }

  /** The keys of `keys` in order of first occurrence, each once (`Array#uniq`):
      the same members, no repetition, and ordered by first occurrence, which
      together make it the subsequence of first occurrences. */
  function Uniq(keys: seq<string>): (r: seq<string>)
    ensures forall k :: k in r <==> k in keys
    ensures forall i, j :: 0 <= i < j < |r| ==> r[i] != r[j]
    ensures forall i, j :: 0 <= i < j < |r| ==> FirstIndex(keys, r[i]) < FirstIndex(keys, r[j])
    decreases |keys|
  {
    if keys == [] then []
    else
      var n := |keys| - 1;
      var pre := Uniq(keys[..n]);
      var last := keys[n];
      assert forall k :: k in keys <==> k in keys[..n] || k == last by {
        assert keys == keys[..n] + [last];
      }
      forall k | k in keys[..n]
        ensures FirstIndex(keys, k) == FirstIndex(keys[..n], k) < n
      {
        FirstIndexOfPrefix(keys, n, k);
      }
      if last in pre then pre
      else
        assert FirstIndex(keys, last) == n;
        pre + [last]
  }

  /** The keys of the replacement map, in its order. */
  function KeysOf(configMap: seq<Location>): (ks: seq<string>)
    ensures |ks| == |configMap|
    ensures forall i :: 0 <= i < |configMap| ==> ks[i] == configMap[i].key
  {
    seq(|configMap|, i requires 0 <= i < |configMap| => configMap[i].key)
  }

  /** The keys the server reports as not found, in the order of `keys`. */
  function MissingKeysOf(http: HttpClient, keys: seq<string>): (r: seq<string>)
    ensures forall k :: k in r <==> k in keys && http.get(k).NotFound?
    decreases |keys|
  {
    if keys == [] then []
    else
      var last := keys[|keys| - 1];
      assert keys == keys[..|keys| - 1] + [last];
      MissingKeysOf(http, keys[..|keys| - 1]) + (if http.get(last).NotFound? then [last] else [])
  }

  /** The error of the first key whose lookup answers neither found nor not found. */
  function FirstServerError(http: HttpClient, keys: seq<string>): (r: Option<ConfigError>)
    ensures r.None? <==> forall k :: k in keys ==> !http.get(k).ServerError?
    ensures r.Some? ==> r.value.UnknownError?
    decreases |keys|
  {
    if keys == [] then None
    else match http.get(keys[0])
      case ServerError(code, reason) => Some(UnknownError(code, reason))
      case _ =>
        assert forall k :: k in keys ==> k == keys[0] || k in keys[1..];
        FirstServerError(http, keys[1..])
  }

  /** None of the first `i` keys answers a server error. */
  predicate NoServerErrorBefore(http: HttpClient, keys: seq<string>, i: nat)
    requires i <= |keys|
  {
    forall j :: 0 <= j < i ==> !http.get(keys[j]).ServerError?
  }

  lemma {:induction false} FirstServerErrorAt(http: HttpClient, keys: seq<string>, i: nat)
    requires i < |keys| && http.get(keys[i]).ServerError?
    requires NoServerErrorBefore(http, keys, i)
    ensures FirstServerError(http, keys) == Some(UnknownError(http.get(keys[i]).code, http.get(keys[i]).reason))
  {
    if i > 0 {
      FirstServerErrorAt(http, keys[1..], i - 1);
    }
  }

  /** The keys a fetch sends a GET request for, in order: each key up to and
      including the first one whose answer is neither found nor not found. */
  function AskedKeys(http: HttpClient, keys: seq<string>): (r: seq<string>)
    ensures |r| <= |keys| && r == keys[..|r|]
    ensures FirstServerError(http, keys).None? ==> r == keys
    ensures FirstServerError(http, keys).Some? ==>
              && r != [] && http.get(r[|r| - 1]).ServerError?
              && FirstServerError(http, keys)
                 == Some(UnknownError(http.get(r[|r| - 1]).code, http.get(r[|r| - 1]).reason))
    ensures forall j :: 0 <= j < |r| - 1 ==> !http.get(r[j]).ServerError?
    decreases |keys|
  {
    if keys == [] then []
    else if http.get(keys[0]).ServerError? then [keys[0]]
    else
      var rest := AskedKeys(http, keys[1..]);
      assert [keys[0]] + rest == keys[..1 + |rest|];
      [keys[0]] + rest
  }

  /** When the first server error answers the key at `i`, exactly the keys
      up to and including it are asked for. */
  lemma {:induction false} AskedKeysAt(http: HttpClient, keys: seq<string>, i: nat)
    requires i < |keys| && http.get(keys[i]).ServerError?
    requires NoServerErrorBefore(http, keys, i)
    ensures AskedKeys(http, keys) == keys[..i + 1]
  {
    if i > 0 {
      AskedKeysAt(http, keys[1..], i - 1);
      assert [keys[0]] + keys[1..][..i] == keys[..i + 1];
    }
  }

  // ------------------------------------------------------------- fetching

  /** `fetch_config_values`: asks the server for each key once, in order;
      `asked` records the GET requests sent. Each key ends up either among
      the values (found) or among the invalid keys (not found), never both,
      and the invalid keys keep the order of `keys`. Any other answer aborts
      with the first such key's error, and no later key is asked for. */
  method FetchConfigValues(http: HttpClient, keys: seq<string>) returns (r: Result<Fetched, ConfigError>, asked: seq<string>)
    ensures asked == AskedKeys(http, keys)
    ensures r.Failure? <==> FirstServerError(http, keys).Some?
    ensures r.Failure? ==> FirstServerError(http, keys) == Some(r.error)
    ensures r.Success? ==> r.value.invalidKeys == MissingKeysOf(http, keys)
    ensures r.Success? ==> forall k :: k in r.value.values <==> k in keys && http.get(k).Found?
    ensures r.Success? ==> forall k :: k in r.value.values ==> http.get(k).Found? && r.value.values[k] == http.get(k).value
    ensures r.Success? ==> forall k :: k in keys ==> (k in r.value.values <==> k !in r.value.invalidKeys)
  {
    var values: map<string, Value> := map[];
    var invalid: seq<string> := [];
    var i := 0;
    asked := [];
    while i < |keys|
      invariant 0 <= i <= |keys|
      invariant asked == keys[..i]
      invariant FetchedBefore(http, keys, i, values, invalid)
    {
      var k := keys[i];
      var found := GetValueForKey(http, k);
      asked := asked + [k];
      assert asked == keys[..i + 1];
      if found.Failure? && !IsMissingKeys(found.error) {
        FirstServerErrorAt(http, keys, i);
        AskedKeysAt(http, keys, i);
        return Failure(found.error), asked;
      }
      var values', invalid' := values, invalid;
      if found.Success? {
        values' := values[k := found.value];
      } else {
        invalid' := invalid + [k];
      }
      FetchStep(http, keys, i, values, values', invalid, invalid');
      values, invalid := values', invalid';
      i := i + 1;
    }
    FetchComplete(http, keys, values, invalid);
    assert asked == keys;
    r := Success(Fetched(values, invalid));
  }

  /** What the fetch loop knows after asking for the first `i` keys: none of
      them answered a server error, the invalid keys are the missing ones in
      order, and the values are exactly those of the keys found. */
  ghost predicate FetchedBefore(http: HttpClient, keys: seq<string>, i: nat,
                                values: map<string, Value>, invalid: seq<string>)
    requires i <= |keys|
  {
    && NoServerErrorBefore(http, keys, i)
    && invalid == MissingKeysOf(http, keys[..i])
    && (forall k :: k in values <==> k in keys[..i] && http.get(k).Found?)
    && (forall k :: k in values ==> http.get(k).Found? && values[k] == http.get(k).value)
  }

  /** When no key answers a server error, the fetch reports no error, and
      each key is either found or missing. */
  lemma FetchComplete(http: HttpClient, keys: seq<string>, values: map<string, Value>, invalid: seq<string>)
    requires FetchedBefore(http, keys, |keys|, values, invalid)
    ensures FirstServerError(http, keys).None?
    ensures invalid == MissingKeysOf(http, keys)
    ensures forall k :: k in values <==> k in keys && http.get(k).Found?
    ensures forall k :: k in values ==> http.get(k).Found? && values[k] == http.get(k).value
    ensures forall k :: k in keys ==> (k in values <==> k !in invalid)
  {
    assert keys[..|keys|] == keys;
    assert forall k :: k in keys ==> !http.get(k).ServerError?;
  }

  /** One more key asked for, found or missing, keeps what the fetch loop
      knows. */
  lemma FetchStep(http: HttpClient, keys: seq<string>, i: nat,
                  values: map<string, Value>, values': map<string, Value>,
                  invalid: seq<string>, invalid': seq<string>)
    requires i < |keys| && FetchedBefore(http, keys, i, values, invalid)
    requires !http.get(keys[i]).ServerError?
    requires http.get(keys[i]).Found? ==> values' == values[keys[i] := http.get(keys[i]).value] && invalid' == invalid
    requires http.get(keys[i]).NotFound? ==> values' == values && invalid' == invalid + [keys[i]]
    ensures FetchedBefore(http, keys, i + 1, values', invalid')
  {
    MissingKeysStep(http, keys, i);
    FoundValuesStep(http, keys, i, values, values');
  }

  /** Asking for one more key adds it to the values exactly when the server
      knows it. */
  lemma FoundValuesStep(http: HttpClient, keys: seq<string>, i: nat,
                        values: map<string, Value>, values': map<string, Value>)
    requires i < |keys|
    requires forall k :: k in values <==> k in keys[..i] && http.get(k).Found?
    requires forall k :: k in values ==> http.get(k).Found? && values[k] == http.get(k).value
    requires http.get(keys[i]).Found? ==> values' == values[keys[i] := http.get(keys[i]).value]
    requires !http.get(keys[i]).Found? ==> values' == values
    ensures forall k :: k in values' <==> k in keys[..i + 1] && http.get(k).Found?
    ensures forall k :: k in values' ==> http.get(k).Found? && values'[k] == http.get(k).value
  {
    assert keys[..i + 1] == keys[..i] + [keys[i]];
  }

  /** Asking for one more key extends the missing keys by that key, if the
      server does not know it. */
  lemma MissingKeysStep(http: HttpClient, keys: seq<string>, i: nat)
    requires i < |keys|
    ensures forall k :: k in keys[..i + 1] <==> k in keys[..i] || k == keys[i]
    ensures MissingKeysOf(http, keys[..i + 1])
         == MissingKeysOf(http, keys[..i]) + (if http.get(keys[i]).NotFound? then [keys[i]] else [])
  {
    assert keys[..i + 1] == keys[..i] + [keys[i]];
    assert keys[..i + 1][..i] == keys[..i];
  }

  // ------------------------------------------------------------ replacing

  /** What the replacement map guarantees about its locations: every path is
      non-empty and leads to a place in `src`, and no path leads into the
      place another one addresses. */
  predicate WellFormedLocations(src: Value, locs: seq<Location>)
  {
    && (forall i :: 0 <= i < |locs| ==> |locs[i].path| > 0 && GetAt(src, locs[i].path).Some?)
    && (forall i, j :: 0 <= i < j < |locs| ==> Unrelated(locs[i].path, locs[j].path))
  }

  /** A fetched value by key; Ruby's hash lookup gives `nil` for a key it lacks. */
  function ValueFor(values: map<string, Value>, key: string): Value
  {
    if key in values then values[key] else Null
  }

  lemma SetAtEffect(w: Value, p: Path, x: Value)
    requires GetAt(w, p).Some?
    ensures GetAt(SetAt(w, p, x), p) == Some(x)
    ensures forall q :: Unrelated(p, q) ==> GetAt(SetAt(w, p, x), q) == GetAt(w, q)
  {
    GetSetSame(w, p, x);
    forall q | Unrelated(p, q)
      ensures GetAt(SetAt(w, p, x), q) == GetAt(w, q)
    {
      GetSetOther(w, p, q, x);
    }
  }

  /** `v` with the value of each location's key written at its path, in order:
      afterwards every location reads its key's value, and every place
      unrelated to all the locations is as it was. */
  function ReplaceAll(v: Value, locs: seq<Location>, values: map<string, Value>): (r: Value)
    requires WellFormedLocations(v, locs)
    ensures forall i :: 0 <= i < |locs| ==> GetAt(r, locs[i].path) == Some(ValueFor(values, locs[i].key))
    ensures forall q :: (forall i :: 0 <= i < |locs| ==> Unrelated(locs[i].path, q)) ==> GetAt(r, q) == GetAt(v, q)
    decreases |locs|
  {
    if locs == [] then v
    else
      var n := |locs| - 1;
      WellFormedPrefix(v, locs, n);
      var w := ReplaceAll(v, locs[..n], values);
      ReplaceLast(v, locs, locs[..n], values, w);
      SetAt(w, locs[n].path, ValueFor(values, locs[n].key))
  }

  /** The inductive step of `ReplaceAll`: writing the last location's value
      into the result for the other locations. */
  lemma ReplaceLast(v: Value, locs: seq<Location>, pre: seq<Location>, values: map<string, Value>, w: Value)
    requires WellFormedLocations(v, locs) && locs != [] && pre == locs[..|locs| - 1]
    requires forall i :: 0 <= i < |pre| ==> GetAt(w, pre[i].path) == Some(ValueFor(values, pre[i].key))
    requires forall q :: (forall i :: 0 <= i < |pre| ==> Unrelated(pre[i].path, q)) ==> GetAt(w, q) == GetAt(v, q)
    ensures GetAt(w, locs[|locs| - 1].path).Some?
    ensures var last := locs[|locs| - 1];
            forall i :: 0 <= i < |locs| ==>
              GetAt(SetAt(w, last.path, ValueFor(values, last.key)), locs[i].path) == Some(ValueFor(values, locs[i].key))
    ensures var last := locs[|locs| - 1];
            forall q :: (forall i :: 0 <= i < |locs| ==> Unrelated(locs[i].path, q)) ==>
              GetAt(SetAt(w, last.path, ValueFor(values, last.key)), q) == GetAt(v, q)
  {
    var last := locs[|locs| - 1];
    assert forall i :: 0 <= i < |pre| ==> pre[i] == locs[i];
    assert forall i :: 0 <= i < |pre| ==> Unrelated(pre[i].path, last.path);
    SetAtEffect(w, last.path, ValueFor(values, last.key));
    forall q | forall i :: 0 <= i < |locs| ==> Unrelated(locs[i].path, q)
      ensures GetAt(SetAt(w, last.path, ValueFor(values, last.key)), q) == GetAt(v, q)
    {
      assert forall i :: 0 <= i < |pre| ==> Unrelated(pre[i].path, q);
      assert Unrelated(last.path, q);
    }
  }

  /** Replacing over one more location of the map is one more write. */
  lemma ReplaceAllStep(v: Value, locs: seq<Location>, values: map<string, Value>, i: nat)
    requires WellFormedLocations(v, locs) && i < |locs|
    ensures WellFormedLocations(v, locs[..i]) && WellFormedLocations(v, locs[..i + 1])
    ensures GetAt(ReplaceAll(v, locs[..i], values), locs[i].path).Some?
    ensures ReplaceAll(v, locs[..i + 1], values)
         == SetAt(ReplaceAll(v, locs[..i], values), locs[i].path, ValueFor(values, locs[i].key))
  {
    WellFormedPrefix(v, locs, i);
    WellFormedPrefix(v, locs, i + 1);
    var pre := locs[..i + 1];
    assert pre[..i] == locs[..i] && pre[i] == locs[i];
    var w := ReplaceAll(v, locs[..i], values);
    assert forall j :: 0 <= j < i ==> Unrelated(locs[..i][j].path, locs[i].path);
    assert GetAt(w, locs[i].path) == GetAt(v, locs[i].path);
  }

  lemma WellFormedPrefix(v: Value, locs: seq<Location>, n: nat)
    requires WellFormedLocations(v, locs) && n <= |locs|
    ensures WellFormedLocations(v, locs[..n])
  {
    assert forall i :: 0 <= i < n ==> locs[..n][i] == locs[i];
  }

  /** `replace_config_values!`: walks the replacement map and assigns each
      location's fetched value at its path. */
  method ReplaceConfigValues(configMap: seq<Location>, values: map<string, Value>, obj: Value) returns (result: Value)
    requires WellFormedLocations(obj, configMap)
    ensures result == ReplaceAll(obj, configMap, values)
    ensures forall i :: 0 <= i < |configMap| ==> GetAt(result, configMap[i].path) == Some(ValueFor(values, configMap[i].key))
  {
    result := obj;
    var i := 0;
    while i < |configMap|
      invariant 0 <= i <= |configMap|
      invariant WellFormedLocations(obj, configMap[..i])
      invariant result == ReplaceAll(obj, configMap[..i], values)
    {
      var loc := configMap[i];
      ReplaceAllStep(obj, configMap, values, i);
      result := SetAt(result, loc.path, ValueFor(values, loc.key));
      i := i + 1;
    }
    assert configMap[..i] == configMap;
  }

  // --------------------------------------------------------- interpolation

  /** Interpolation asks for each key of the replacement map at most once,
      asks for nothing else, and, unless a server error stops it, asks for
      every key. */
  lemma AskedOnce(http: HttpClient, configMap: seq<Location>)
    ensures var asked := AskedKeys(http, Uniq(KeysOf(configMap)));
            && (forall i, j :: 0 <= i < j < |asked| ==> asked[i] != asked[j])
            && (forall k :: k in asked ==> exists i :: 0 <= i < |configMap| && configMap[i].key == k)
            && (FirstServerError(http, Uniq(KeysOf(configMap))).None? ==>
                  forall i :: 0 <= i < |configMap| ==> configMap[i].key in asked)
  {
    var keys := Uniq(KeysOf(configMap));
    var asked := AskedKeys(http, keys);
    assert forall i :: 0 <= i < |asked| ==> asked[i] == keys[i];
    forall k | k in asked
      ensures exists i :: 0 <= i < |configMap| && configMap[i].key == k
    {
      assert k in keys;
      var i :| 0 <= i < |KeysOf(configMap)| && KeysOf(configMap)[i] == k;
    }
    forall i | 0 <= i < |configMap|
      ensures FirstServerError(http, keys).None? ==> configMap[i].key in asked
    {
      assert KeysOf(configMap)[i] == configMap[i].key;
    }
  }

  /** `interpolate`: looks up every distinct key of the replacement map once,
      in order of first occurrence; `asked` records the GET requests sent.
      A server error aborts with that error; otherwise, if any key is missing,
      it raises `MissingKeys` naming all missing keys and returns nothing;
      otherwise it returns the input with every placeholder location replaced
      by its key's value and everything else unchanged. */
  method Interpolate(http: HttpClient, src: Value, configMap: seq<Location>) returns (r: Result<Value, ConfigError>, asked: seq<string>)
    requires WellFormedLocations(src, configMap)
    ensures configMap == [] ==> r == Success(src) && asked == []
    ensures asked == AskedKeys(http, Uniq(KeysOf(configMap)))
    ensures forall i, j :: 0 <= i < j < |asked| ==> asked[i] != asked[j]
    ensures forall k :: k in asked ==> exists i :: 0 <= i < |configMap| && configMap[i].key == k
    ensures FirstServerError(http, Uniq(KeysOf(configMap))).None? ==>
              forall i :: 0 <= i < |configMap| ==> configMap[i].key in asked
    ensures var keys := Uniq(KeysOf(configMap));
            FirstServerError(http, keys).Some? ==> r == Failure(FirstServerError(http, keys).value)
    ensures var keys := Uniq(KeysOf(configMap));
            FirstServerError(http, keys).None? && MissingKeysOf(http, keys) != [] ==>
              r == Failure(MissingKeys(MissingKeysOf(http, keys)))
    ensures var keys := Uniq(KeysOf(configMap));
            FirstServerError(http, keys).None? && MissingKeysOf(http, keys) == [] ==>
              && r.Success?
              && (forall i :: 0 <= i < |configMap| ==>
                    http.get(configMap[i].key).Found? && GetAt(r.value, configMap[i].path) == Some(http.get(configMap[i].key).value))
              && (forall q :: (forall i :: 0 <= i < |configMap| ==> Unrelated(configMap[i].path, q)) ==> GetAt(r.value, q) == GetAt(src, q))
  {
    var result := src;
    var keys := Uniq(KeysOf(configMap));
    AskedOnce(http, configMap);
    var fetched;
    fetched, asked := FetchConfigValues(http, keys);
    if fetched.Failure? {
      return Failure(fetched.error), asked;
    }
    var values := fetched.value.values;
    var invalid := fetched.value.invalidKeys;
    if |invalid| > 0 {
      return Failure(MissingKeys(invalid)), asked;
    }
    forall i | 0 <= i < |configMap|
      ensures http.get(configMap[i].key).Found? && ValueFor(values, configMap[i].key) == http.get(configMap[i].key).value
    {
      var k := configMap[i].key;
      assert k in KeysOf(configMap);
      assert k in keys;
      assert k !in invalid;
    }
    result := ReplaceConfigValues(configMap, values, result);
    r := Success(result);
  }

  // ---------------------------------------------------------- placeholders

  /** One line of the form `((...))`: the pattern `^\(\(.*\)\)$` matches a
      string when some line of it (`^` and `$` are line anchors) has this form. */
  predicate IsPlaceholderLine(l: string)
  {
    |l| >= 4 && l[..2] == "((" && l[|l| - 2..] == "))"
  }

  /** A value matches the placeholder pattern when it is a string with such a
      line; the text of any other value has none. */
  predicate IsPlaceholder(v: Value)
    ensures IsPlaceholder(v) ==> v.Str?
  {
    v.Str? && exists l :: l in Text.Lines(v.s) && IsPlaceholderLine(l)
  }

  /** A string without line breaks is a placeholder exactly when it starts
      with `((` and ends with `))`. */
  lemma OneLinePlaceholder(s: string)
    requires '\n' !in s
    ensures IsPlaceholder(Str(s)) <==> IsPlaceholderLine(s)
  {
  }

  /** One line after removing a leading `((` and then a trailing `))`. */
  function StripLine(l: string): (r: string)
    ensures |r| <= |l|
    ensures IsPlaceholderLine(l) ==> "((" + r + "))" == l
  {
    var a := if |l| >= 2 && l[..2] == "((" then l[2..] else l;
    if |a| >= 2 && a[|a| - 2..] == "))" then a[..|a| - 2] else a
  }

  function StripEach(ls: seq<string>): (r: seq<string>)
    ensures |r| == |ls|
  {
    if ls == [] then [] else [StripLine(ls[0])] + StripEach(ls[1..])
  }

  /** The key named by a placeholder: `gsub(/(^\(\(|\)\)$)/, '')`, which strips
      the delimiters at the start and end of every line. */
  function StripDelimiters(s: string): (r: string)
    ensures '\n' !in s ==> r == StripLine(s)
  {
    Text.Join(StripEach(Text.Lines(s)), "\n")
  }

  /** Wrapping a one-line key in delimiters gives a placeholder naming that key. */
  lemma PlaceholderRoundTrip(key: string)
    requires '\n' !in key
    ensures IsPlaceholder(Str("((" + key + "))"))
    ensures StripDelimiters("((" + key + "))") == key
  {
    var s := "((" + key + "))";
    assert '\n' !in s by {
      assert forall i :: 0 <= i < |s| ==> s[i] == '(' || s[i] == ')' || s[i] in key;
    }
    assert s[..2] == "((" && s[|s| - 2..] == "))";
    assert IsPlaceholderLine(s);
    assert s[2..] == key + "))";
    assert (key + "))")[..|key|] == key;
  }

  /** Text without delimiters at the start or end of any line is left as it is. */
  lemma StripWithoutDelimiters(s: string)
    requires forall l :: l in Text.Lines(s) ==> StripLine(l) == l
    ensures StripDelimiters(s) == s
  {
    StripEachIdentity(Text.Lines(s));
    Text.JoinLines(s);
  }

  lemma {:induction false} StripEachIdentity(ls: seq<string>)
    requires forall l :: l in ls ==> StripLine(l) == l
    ensures StripEach(ls) == ls
  {
    if ls != [] {
      assert ls[0] in ls;
      assert forall l :: l in ls[1..] ==> l in ls;
      StripEachIdentity(ls[1..]);
    }
  }

  /** A one-line placeholder is its key wrapped in delimiters. */
  lemma PlaceholderIsWrappedKey(s: string)
    requires '\n' !in s && IsPlaceholder(Str(s))
    ensures s == "((" + StripDelimiters(s) + "))"
  {
    assert IsPlaceholderLine(s);
    assert StripDelimiters(s) == s[2..][..|s| - 4];
    assert s == s[..2] + s[2..][..|s| - 4] + s[|s| - 2..];
  }

  // -------------------------------------------------------------- properties

  /** `prepare_and_get_property`: nil gives the default; a value that is not
      a placeholder is returned as given; for a placeholder, the key (its text
      without delimiters) is looked up: when the server has it the placeholder
      is returned; when it is missing the default is returned if there is one,
      and otherwise the placeholder, after asking the server to generate a
      password when the property's type is `password`. */
  function PrepareAndGetProperty(http: HttpClient, provided: Value, default: Value, propertyType: string): (r: Result<Property, ConfigError>)
    ensures r.Success? ==> r.value.value == provided || r.value.value == default
    ensures provided.Null? ==> r == Success(Property(default, None))
    ensures !provided.Null? && !IsPlaceholder(provided) ==> r == Success(Property(provided, None))
    ensures IsPlaceholder(provided) ==>
              var key := StripDelimiters(provided.s);
              && (http.get(key).Found? ==> r == Success(Property(provided, None)))
              && (http.get(key).NotFound? && !default.Null? ==> r == Success(Property(default, None)))
              && (http.get(key).NotFound? && default.Null? && propertyType != "password" ==> r == Success(Property(provided, None)))
              && (http.get(key).ServerError? ==> r == Failure(UnknownError(http.get(key).code, http.get(key).reason)))
    ensures (r.Success? && r.value.generatedPassword.Some?) <==>
              && IsPlaceholder(provided) && default.Null? && propertyType == "password"
              && http.get(StripDelimiters(provided.s)).NotFound? && http.post(StripDelimiters(provided.s))
    ensures r.Success? && r.value.generatedPassword.Some? ==>
              r.value == Property(provided, Some(StripDelimiters(provided.s)))
    ensures r == Failure(PasswordGenerationError) <==>
              && IsPlaceholder(provided) && default.Null? && propertyType == "password"
              && http.get(StripDelimiters(provided.s)).NotFound? && !http.post(StripDelimiters(provided.s))
  {
    if provided.Null? then Success(Property(default, None))
    else if IsPlaceholder(provided) then
      var key := StripDelimiters(provided.s);
      match KeyExists(http, key)
      case Failure(e) => Failure(e)
      case Success(exists_) =>
        if exists_ then Success(Property(provided, None))
        else if default.Null? then
          if propertyType == "password" then
            if http.post(key) then Success(Property(provided, Some(key))) else Failure(PasswordGenerationError)
          else Success(Property(provided, None))
        else Success(Property(default, None))
    else Success(Property(provided, None))
  }

  // ---------------------------------------------------------- disabled client

  /** The disabled client's `interpolate`, `interpolate_deployment_manifest`
      and `interpolate_runtime_manifest`: an unchanged copy. */
  function DisabledInterpolate(src: Value): (r: Value)
    ensures forall p :: GetAt(r, p) == GetAt(src, p)
  {
    src
  }

  /** The disabled client's `prepare_and_get_property`: the default when
      nothing is provided, the provided value otherwise. */
  function DisabledPrepareAndGetProperty(provided: Value, default: Value, propertyType: string): (r: Value)
    ensures provided.Null? ==> r == default
    ensures !provided.Null? ==> r == provided
  {
    if provided.Null? then default else provided
  }

  /** Without placeholders the two clients agree: the enabled client neither
      contacts the server nor generates a password, and returns what the
      disabled client returns. */
  lemma ClientsAgreeWithoutPlaceholders(http: HttpClient, provided: Value, default: Value, propertyType: string)
    requires !IsPlaceholder(provided)
    ensures PrepareAndGetProperty(http, provided, default, propertyType)
         == Success(Property(DisabledPrepareAndGetProperty(provided, default, propertyType), None))
  {
  }
}
