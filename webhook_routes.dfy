/**
 * The webhook route resolver (webhookRoutes.ts).
 *
 * A route table is built once from the WEBHOOK_ROUTES configuration value
 * (`ParseRouteMap`) and never written afterwards; `Resolve` turns a request
 * pathname into a route key by trimming the slashes around it and looks the
 * key up in that table.
 */
module WebhookRoutes {
  import opened Json

  datatype Option<T> = None | Some(value: T)

  /**
   * What a table entry holds. The cast in the source does not check the
   * parsed values, so an entry may be any JSON value; only whether it is a
   * string, and which string, matters to the lookup.
   */
  datatype RouteValue = Str(s: string) | Other

  type RouteTable = map<string, RouteValue>

  // ---------------------------------------------------------------------------
  // Key normalisation
  // ---------------------------------------------------------------------------

  predicate AllSlashes(s: string) {
    forall i :: 0 <= i < |s| ==> s[i] == '/'
  }

  /** A run of `n` slashes. */
  function Slashes(n: nat): (r: string)
    ensures |r| == n && AllSlashes(r)
  {
    if n == 0 then "" else "/" + Slashes(n - 1)
  }

  /** A route key neither starts nor ends with a slash. */
  predicate IsRouteKey(k: string) {
    k == "" || (k[0] != '/' && k[|k| - 1] != '/')
  }

  /**
   * `s.replace(/^\/+/, "")`: the maximal leading run of slashes is removed
   * and the rest is kept unchanged.
   */
  function TrimLeadingSlashes(s: string): (r: string)
    ensures |r| <= |s| && r == s[|s| - |r|..]
    ensures AllSlashes(s[..|s| - |r|])
    ensures r == "" || r[0] != '/'
  {
    if |s| > 0 && s[0] == '/' then TrimLeadingSlashes(s[1..]) else s
  }

  /**
   * `s.replace(/\/+$/, "")`: the maximal trailing run of slashes is removed
   * and the rest is kept unchanged.
   */
  function TrimTrailingSlashes(s: string): (r: string)
    ensures |r| <= |s| && r == s[..|r|]
    ensures AllSlashes(s[|r|..])
    ensures r == "" || r[|r| - 1] != '/'
  {
    if |s| > 0 && s[|s| - 1] == '/' then TrimTrailingSlashes(s[..|s| - 1]) else s
  }

  /** The route key of a pathname: leading slashes off first, then trailing ones. */
  function NormalizeKey(pathname: string): (key: string)
    ensures IsRouteKey(key)
  {
    TrimTrailingSlashes(TrimLeadingSlashes(pathname))
  }

  /** Removing leading slashes from `m + rest` yields `rest` whenever `m` is slashes only and `rest` does not start with one. */
  lemma {:induction false} TrimLeadingSlashesUnique(m: string, rest: string)
    requires AllSlashes(m) && (rest == "" || rest[0] != '/')
    ensures TrimLeadingSlashes(m + rest) == rest
    decreases |m|
  {
    if m == "" {
      assert m + rest == rest;
    } else {
      assert (m + rest)[0] == m[0] == '/';
      assert (m + rest)[1..] == m[1..] + rest;
      TrimLeadingSlashesUnique(m[1..], rest);
    }
  }

  /** Removing trailing slashes from `rest + m` yields `rest` whenever `m` is slashes only and `rest` does not end with one. */
  lemma {:induction false} TrimTrailingSlashesUnique(rest: string, m: string)
    requires AllSlashes(m) && (rest == "" || rest[|rest| - 1] != '/')
    ensures TrimTrailingSlashes(rest + m) == rest
    decreases |m|
  {
    if m == "" {
      assert rest + m == rest;
    } else {
      var s := rest + m;
      assert s[|s| - 1] == m[|m| - 1] == '/';
      assert s[..|s| - 1] == rest + m[..|m| - 1];
      TrimTrailingSlashesUnique(rest, m[..|m| - 1]);
    }
  }

  /**
   * The key is a contiguous piece of the pathname: only a run of slashes
   * before it and a run of slashes after it are dropped, and every character
   * in between, interior slashes included, is kept.
   */
  lemma NormalizeKeyIsInfix(pathname: string)
    ensures exists lo: nat, hi: nat | lo <= hi <= |pathname| ::
      NormalizeKey(pathname) == pathname[lo..hi] && AllSlashes(pathname[..lo]) && AllSlashes(pathname[hi..])
  {
    var t := TrimLeadingSlashes(pathname);
    var key := NormalizeKey(pathname);
    var lo: nat := |pathname| - |t|;
    var hi: nat := lo + |key|;
    assert t == pathname[lo..];
    assert key == t[..|key|] == pathname[lo..hi];
    assert t[|key|..] == pathname[hi..];
  }

  /** A key wrapped in any number of slashes on either side normalises to the key itself. */
  lemma NormalizeKeyWrapped(i: nat, k: string, j: nat)
    requires IsRouteKey(k)
    ensures NormalizeKey(Slashes(i) + k + Slashes(j)) == k
  {
    var pre, post := Slashes(i), Slashes(j);
    var p := pre + k + post;
    if k == "" {
      var m := pre + post;
      assert p == m + "";
      assert AllSlashes(m);
      TrimLeadingSlashesUnique(m, "");
      assert TrimLeadingSlashes(p) == "";
    } else {
      var rest := k + post;
      assert p == pre + rest;
      TrimLeadingSlashesUnique(pre, rest);
      assert TrimLeadingSlashes(p) == rest;
      TrimTrailingSlashesUnique(k, post);
    }
  }

  /** A route key is its own normal form. */
  lemma NormalizeRouteKey(k: string)
    requires IsRouteKey(k)
    ensures NormalizeKey(k) == k
  {
    assert "" + k == k && k + "" == k;
    TrimLeadingSlashesUnique("", k);
    TrimTrailingSlashesUnique(k, "");
  }

  /** One leading slash in front of a route key is dropped. */
  lemma NormalizeSlashRouteKey(k: string)
    requires IsRouteKey(k)
    ensures NormalizeKey("/" + k) == k
  {
    assert k + "" == k;
    TrimLeadingSlashesUnique("/", k);
    TrimTrailingSlashesUnique(k, "");
  }

  /** Normalising an already normalised key changes nothing. */
  lemma NormalizeKeyIdempotent(pathname: string)
    ensures NormalizeKey(NormalizeKey(pathname)) == NormalizeKey(pathname)
  {
    NormalizeRouteKey(NormalizeKey(pathname));
  }

  /** The key is empty exactly when the pathname is empty or made only of slashes. */
  lemma NormalizeKeyEmptyIff(pathname: string)
    ensures NormalizeKey(pathname) == "" <==> AllSlashes(pathname)
  {
    if AllSlashes(pathname) {
      assert pathname + "" == pathname;
      TrimLeadingSlashesUnique(pathname, "");
    } else {
      var i :| 0 <= i < |pathname| && pathname[i] != '/';
      NormalizeKeyIsInfix(pathname);
      var lo: nat, hi: nat :| lo <= hi <= |pathname| && NormalizeKey(pathname) == pathname[lo..hi]
        && AllSlashes(pathname[..lo]) && AllSlashes(pathname[hi..]);
    }
  }

  // ---------------------------------------------------------------------------
  // Lookup
  // ---------------------------------------------------------------------------

  /** The target the table stores under `key`, if it is a non-empty string. */
  function StoredTarget(table: RouteTable, key: string): (r: Option<string>)
    ensures r.Some? <==> key in table && table[key].Str? && table[key].s != ""
    ensures r.Some? ==> table[key] == Str(r.value)
  {
    if key !in table then None
    else match table[key]
      case Str(s) => if s == "" then None else Some(s)
      case Other => None
  }

  /**
   * `resolveWebhookTarget`: the target URL for a request pathname, or None
   * (the source's `null`). A result is always a non-empty string stored in
   * the table under the pathname's non-empty route key; there is no result
   * exactly when that key is empty, missing from the table, or stored with
   * the empty string or a value that is not a string.
   */
  function Resolve(table: RouteTable, pathname: string): (r: Option<string>)
    ensures r.Some? ==> r.value != ""
    ensures r.Some? ==> NormalizeKey(pathname) != "" && NormalizeKey(pathname) in table
                        && table[NormalizeKey(pathname)] == Str(r.value)
    ensures var key := NormalizeKey(pathname);
      r.None? <==> (key == "" || key !in table || table[key] == Str("") || table[key].Other?)
  {
    var key := NormalizeKey(pathname);
    if key == "" then None else StoredTarget(table, key)
  }

  /** An empty or slash-only pathname resolves to nothing, whatever the table holds, even an entry under "". */
  lemma ResolveSlashesOnly(table: RouteTable, pathname: string)
    requires AllSlashes(pathname)
    ensures Resolve(table, pathname) == None
  {
    NormalizeKeyEmptyIff(pathname);
  }

  /** The lookup sees only the route key: resolving a pathname and resolving its key agree. */
  lemma ResolveThroughKey(table: RouteTable, pathname: string)
    ensures Resolve(table, pathname) == Resolve(table, NormalizeKey(pathname))
  {
    NormalizeKeyIdempotent(pathname);
  }

  /** Only slashes are trimmed: a whitespace key is looked up like any other. */
  lemma ResolveWhitespaceKey()
    ensures Resolve(map[" " := Str("u")], "/ /") == Some("u")
  {
    NormalizeKeyWrapped(1, " ", 1);
    assert Slashes(1) + " " + Slashes(1) == "/ /";
  }

  /** `/k`, `k/`, `/k/` and `k` with any number of slashes around resolve alike. */
  lemma ResolveWrapped(table: RouteTable, i: nat, k: string, j: nat)
    requires IsRouteKey(k)
    ensures Resolve(table, Slashes(i) + k + Slashes(j)) == Resolve(table, k)
  {
    NormalizeKeyWrapped(i, k, j);
    NormalizeRouteKey(k);
  }

  // ---------------------------------------------------------------------------
  // Building the table from the configuration value
  // ---------------------------------------------------------------------------

  /** What a parsed value becomes once it sits in the table. */
  function ToRouteValue(v: JsonValue): (r: RouteValue)
    ensures r.Str? <==> v.JString?
    ensures r.Str? ==> v == JString(r.s)
  {
    if v.JString? then Str(v.s) else Other
  }

  /**
   * The guard `parsed && typeof parsed === "object"`: it lets through exactly
   * objects and arrays (it does not reject arrays).
   */
  predicate PassesObjectGuard(v: JsonValue)
    ensures PassesObjectGuard(v) <==> v.JObject? || v.JArray?
  {
    Truthy(v) && TypeOf(v) == TObject
  }

  /** The table an object denotes: its own fields under their own names. */
  function ObjectTable(fields: map<string, JsonValue>): (table: RouteTable)
    ensures table.Keys == fields.Keys
    ensures forall k :: k in fields ==> table[k] == ToRouteValue(fields[k])
  {
    map k | k in fields :: ToRouteValue(fields[k])
  }

  /** The table an array denotes: its n-th element under the key DecimalString(n). */
  function ArrayTable(items: seq<JsonValue>): (table: RouteTable)
    ensures forall n: nat :: n < |items| ==> DecimalString(n) in table && table[DecimalString(n)] == ToRouteValue(items[n])
    ensures forall k :: k in table ==> exists n: nat :: n < |items| && k == DecimalString(n)
  {
    if items == [] then map[]
    else
      var last := |items| - 1;
      DecimalStringInjectiveAll();
      ArrayTable(items[..last])[DecimalString(last) := ToRouteValue(items[last])]
  }

  /** The cases in which `parseRouteMap` falls back to the empty table. */
  predicate FallsBack(raw: Option<string>, parse: string -> ParseResult)
    ensures !FallsBack(raw, parse) <==>
      raw.Some? && raw.value != "" && parse(raw.value).Parsed?
      && (parse(raw.value).value.JObject? || parse(raw.value).value.JArray?)
  {
    || raw == None
    || raw == Some("")
    || parse(raw.value) == ParseError
    || !PassesObjectGuard(parse(raw.value).value)
  }

  /**
   * `parseRouteMap`: the route table from the raw WEBHOOK_ROUTES value
   * (None when the variable is unset), with `JSON.parse` as the oracle
   * `parse`. Every failure yields the empty table; otherwise the parsed
   * object or array is the table.
   */
  function ParseRouteMap(raw: Option<string>, parse: string -> ParseResult): (table: RouteTable)
    ensures FallsBack(raw, parse) ==> table == map[]
    ensures !FallsBack(raw, parse) && parse(raw.value).value.JObject? ==>
      table == ObjectTable(parse(raw.value).value.fields)
    ensures !FallsBack(raw, parse) && parse(raw.value).value.JArray? ==>
      table == ArrayTable(parse(raw.value).value.items)
  {
    if raw.None? || raw.value == "" then map[]
    else match parse(raw.value)
      case ParseError => map[]
      case Parsed(v) =>
        // the unchecked cast `parsed as WebhookRouteMap`
        if !PassesObjectGuard(v) then map[]
        else if v.JObject? then ObjectTable(v.fields)
        else ArrayTable(v.items)
  }

  /** With an unset, empty, malformed or non-object configuration no pathname resolves. */
  lemma FallbackResolvesNothing(raw: Option<string>, parse: string -> ParseResult, pathname: string)
    requires FallsBack(raw, parse)
    ensures Resolve(ParseRouteMap(raw, parse), pathname) == None
  {
  }

  /**
   * With a configured object, a pathname resolves to the field named by its
   * route key exactly when that field is a non-empty string.
   */
  lemma ObjectConfigResolves(raw: Option<string>, parse: string -> ParseResult,
                             fields: map<string, JsonValue>, pathname: string)
    requires raw.Some? && raw.value != "" && parse(raw.value) == Parsed(JObject(fields))
    ensures var key := NormalizeKey(pathname);
      Resolve(ParseRouteMap(raw, parse), pathname) ==
        if key != "" && key in fields && fields[key].JString? && fields[key].s != ""
        then Some(fields[key].s) else None
  {
  }

  /**
   * With a configured array (not rejected by the guard), the pathname
   * "/n" resolves to the n-th element when that element is a non-empty
   * string.
   */
  lemma ArrayConfigResolvesIndex(raw: Option<string>, parse: string -> ParseResult,
                                 items: seq<JsonValue>, n: nat)
    requires raw.Some? && raw.value != "" && parse(raw.value) == Parsed(JArray(items))
    requires n < |items|
    ensures Resolve(ParseRouteMap(raw, parse), "/" + DecimalString(n)) ==
      if items[n].JString? && items[n].s != "" then Some(items[n].s) else None
  {
    var table := ParseRouteMap(raw, parse);
    assert PassesObjectGuard(JArray(items));
    assert table == ArrayTable(items);
    var k := DecimalString(n);
    assert IsRouteKey(k) by {
      assert '0' <= k[0] <= '9' && '0' <= k[|k| - 1] <= '9';
    }
    NormalizeSlashRouteKey(k);
    assert table[k] == ToRouteValue(items[n]);
  }

  /**
   * With a configured array, "/" followed by a canonical digit string `s`
   * resolves to the element at the index `s` spells.
   */
  lemma ArrayConfigResolvesDigits(raw: Option<string>, parse: string -> ParseResult,
                                  items: seq<JsonValue>, s: string)
    requires raw.Some? && raw.value != "" && parse(raw.value) == Parsed(JArray(items))
    requires IsCanonicalDigits(s) && DigitsValue(s) < |items|
    ensures var n := DigitsValue(s);
      Resolve(ParseRouteMap(raw, parse), "/" + s) ==
        if items[n].JString? && items[n].s != "" then Some(items[n].s) else None
  {
    DecimalStringOfValue(s);
    ArrayConfigResolvesIndex(raw, parse, items, DigitsValue(s));
  }

  /** With a configured array, whatever resolves is an element of the array named by its index. */
  lemma ArrayConfigResolvesOnlyElements(raw: Option<string>, parse: string -> ParseResult,
                                        items: seq<JsonValue>, pathname: string)
    requires raw.Some? && raw.value != "" && parse(raw.value) == Parsed(JArray(items))
    ensures var r := Resolve(ParseRouteMap(raw, parse), pathname);
      r.Some? ==> exists n: nat :: n < |items| && NormalizeKey(pathname) == DecimalString(n) && items[n] == JString(r.value)
  {
    var table := ParseRouteMap(raw, parse);
    var key := NormalizeKey(pathname);
    if Resolve(table, pathname).Some? {
      assert key in table;
      var n: nat :| n < |items| && key == DecimalString(n);
      assert table[DecimalString(n)] == ToRouteValue(items[n]);
    }
  }
}
