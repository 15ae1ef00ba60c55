# Webhook route resolver

A model of the route resolver in `webhookRoutes.ts` of a webhook relay. The relay
accepts an incoming webhook on a fixed public path and forwards it to an upstream URL
that comes from configuration. The resolver does two things:

- **Building the route table** (`parseRouteMap`). The table is built once, from the
  `WEBHOOK_ROUTES` configuration value, a JSON object that maps route keys to upstream
  URLs. If the value is unset or empty, cannot be parsed, or is not an object, the
  table is empty.
- **Resolving a pathname** (`resolveWebhookTarget`). The pathname becomes a route key:
  every leading `/` and every trailing `/` is stripped, and interior slashes stay. The
  resolver then returns the URL stored under that key. It returns nothing when the key
  is empty, when no entry exists, or when the entry is not a non-empty string.

Files:

- `json.dfy`, module `Json`. The `JSON.parse` outcome is modelled as an abstract
  value: an error, or a JSON value. The file also defines the parts of JavaScript the
  resolver relies on: truthiness, `typeof`, and the decimal property keys of array
  elements.
- `webhook_routes.dfy`, module `WebhookRoutes`:
  - key normalisation, written as two explicit trimming functions in place of the two
    anchored regular expressions;
  - the lookup over an immutable `map<string, RouteValue>`;
  - `parseRouteMap`, with `JSON.parse` passed in as an oracle function `parse`.

An entry is a `RouteValue`: `Str(s)` or `Other`. The cast `parsed as WebhookRouteMap`
is never checked, so an entry may hold any JSON value. The lookup has to guard against
that, and the model keeps the distinction.

The module-level `const routeMap` is assigned once and never written again. In the
model it is the `table` argument of `Resolve`. `ParseRouteMap(raw, parse)` produces it,
and `raw` is `None` when the variable is unset.

Where the code and the design description of the system disagree, the model follows
the code:

- **Arrays.** The guard `parsed && typeof parsed === "object"` also lets a JSON array
  through. The design says an array gives an empty table. In the code the array
  becomes the table instead: the path `/0` resolves to its first element if that
  element is a non-empty string. More generally, `/` followed by any digit string with
  no redundant leading zero resolves to the element at the index it spells
  (`ArrayConfigResolvesIndex`, `ArrayConfigResolvesDigits`).
- **Whitespace.** The design says a whitespace-only path is absent. The code strips
  only `/`, so a path such as `"/ /"` is looked up under the key `" "` like any other
  key (`ResolveWhitespaceKey`).
- **URL validity.** The design says values that are not valid URLs are treated as
  absent. The code checks only for a non-empty string; URL validity is never checked.
- **Empty key.** The design says no entry has the empty string as its key. The code
  does not prevent one, but the empty-key guard makes such an entry unreachable
  (`ResolveSlashesOnly`).

## Model

| member | source | states |
|---|---|---|
| `WebhookRoutes.TrimLeadingSlashes` | webhookRoutes.ts:40 | The result is a suffix of the input. Everything removed is `/`. The result is empty or does not start with `/`. So exactly the maximal leading run of slashes is removed. |
| `WebhookRoutes.TrimTrailingSlashes` | webhookRoutes.ts:40 | The result is a prefix of the input. Everything removed is `/`. The result is empty or does not end with `/`. So exactly the maximal trailing run is removed. |
| `WebhookRoutes.TrimLeadingSlashesUnique` | webhookRoutes.ts:40 | If `m` is only slashes and `rest` does not start with one, stripping `m + rest` gives exactly `rest`. |
| `WebhookRoutes.TrimTrailingSlashesUnique` | webhookRoutes.ts:40 | If `m` is only slashes and `rest` does not end with one, stripping `rest + m` gives exactly `rest`. |
| `WebhookRoutes.NormalizeKey` | webhookRoutes.ts:39-40 | The route key never starts and never ends with `/`. |
| `WebhookRoutes.NormalizeKeyIsInfix` | webhookRoutes.ts:40 | The key is a contiguous slice `pathname[lo..hi]`. Everything before `lo` and after `hi` is `/`. Interior characters, slashes included, are unchanged. |
| `WebhookRoutes.NormalizeKeyWrapped` | webhookRoutes.ts:34-40 | For any route key `k` and any `i`, `j`: `i` slashes + `k` + `j` slashes normalises to `k`. |
| `WebhookRoutes.NormalizeRouteKey` | webhookRoutes.ts:40 | A string that neither starts nor ends with `/` is its own route key. |
| `WebhookRoutes.NormalizeSlashRouteKey` | webhookRoutes.ts:40 | `/` followed by a route key normalises to that key. |
| `WebhookRoutes.NormalizeKeyIdempotent` | webhookRoutes.ts:40 | Normalising a normalised key returns it unchanged. |
| `WebhookRoutes.NormalizeKeyEmptyIff` | webhookRoutes.ts:40-41 | The key is empty exactly when the pathname is empty or consists only of `/`. |
| `WebhookRoutes.StoredTarget` | webhookRoutes.ts:43-44 | An entry is returned exactly when the key is present and its value is a non-empty string, and then it is that string. |
| `WebhookRoutes.Resolve` | webhookRoutes.ts:38-47 | A result is a non-empty string, and it is the table entry under the pathname's non-empty key. There is no result exactly when the key is empty, missing, or stored with `""` or a non-string value. |
| `WebhookRoutes.ResolveSlashesOnly` | webhookRoutes.ts:40-41 | An empty or slash-only pathname resolves to nothing for every table, even one with an entry under `""`. |
| `WebhookRoutes.ResolveThroughKey` | webhookRoutes.ts:40-46 | A pathname and its normalised key resolve to the same result. |
| `WebhookRoutes.ResolveWhitespaceKey` | webhookRoutes.ts:40-46 | Only `/` is trimmed: with the table `{" ": "u"}`, the path `/ /` resolves to `u`, so a whitespace key is not treated as empty. |
| `WebhookRoutes.ResolveWrapped` | webhookRoutes.ts:34-46 | `i` slashes + `k` + `j` slashes resolves the same as the bare route key `k`. This covers `/k`, `k/`, `/k/` and `k`. |
| `Json.Truthy` | webhookRoutes.ts:21 | Definition of JavaScript's truthiness test `parsed &&` on a JSON value. Its contract: the value is falsy exactly when it is `null`, `false`, `0` or `""`. |
| `Json.TypeOf` | webhookRoutes.ts:21 | Definition of `typeof` on a JSON value. Its contract: the tag is "object" exactly for `null`, arrays and objects. |
| `WebhookRoutes.ToRouteValue` | webhookRoutes.ts:22 | A table entry is a string exactly when the parsed value is a JSON string, and then it is the same string. |
| `WebhookRoutes.PassesObjectGuard` | webhookRoutes.ts:21 | `parsed && typeof parsed === "object"` holds exactly for JSON objects and arrays. Null, booleans, numbers and strings are rejected. |
| `WebhookRoutes.ObjectTable` | webhookRoutes.ts:22 | The table of an object has exactly the object's keys, and each entry is that field's value. |
| `WebhookRoutes.ArrayTable` | webhookRoutes.ts:21-22 | The table of an array maps the decimal string of each index to that element, and has no other keys. |
| `WebhookRoutes.FallsBack` | webhookRoutes.ts:17-28 | Definition of when `parseRouteMap` falls back: the value is unset or empty (:17), fails to parse (:26-28), or fails the object guard (:21, :24-25). Its contract: there is no fallback exactly when the raw value is non-empty and parses to an object or an array. |
| `WebhookRoutes.ParseRouteMap` | webhookRoutes.ts:14-30 | In every fallback case the table is empty. Otherwise the parsed object is the table (`ObjectTable`), or the parsed array is (`ArrayTable`); this is the unchecked cast at :22. |
| `WebhookRoutes.FallbackResolvesNothing` | webhookRoutes.ts:14-47 | After any fallback of `parseRouteMap`, no pathname resolves. |
| `WebhookRoutes.ObjectConfigResolves` | webhookRoutes.ts:20-47 | With a configured object, a pathname resolves exactly when its non-empty key names a field holding a non-empty string, and then to that string. |
| `WebhookRoutes.ArrayConfigResolvesIndex` | webhookRoutes.ts:20-47 | With a configured array, `/n` resolves to element `n` whenever that element is a non-empty string, and to nothing otherwise. |
| `WebhookRoutes.ArrayConfigResolvesDigits` | webhookRoutes.ts:20-47 | With a configured array, `/` followed by a digit string with no redundant leading zero resolves to the element at the index the string spells, whenever it is a non-empty string, and to nothing otherwise. |
| `WebhookRoutes.ArrayConfigResolvesOnlyElements` | webhookRoutes.ts:20-47 | With a configured array, anything that resolves is the string element whose index spells the route key. |
| `Json.DecimalString` | webhookRoutes.ts:43 | The property key of array index `n` is a non-empty string of digits. It has no leading zero unless `n` is 0. |
| `Json.DecimalStringValue` | webhookRoutes.ts:43 | The property key of index `n` spells `n` in decimal. |
| `Json.DecimalStringOfValue` | webhookRoutes.ts:43 | Every digit string with no redundant leading zero is the property key of the index it spells. |
| `Json.DecimalStringInjective` | webhookRoutes.ts:43 | Two indices with the same property key are the same index. |

## Left out

- Reading `process.env.WEBHOOK_ROUTES` is environment I/O. The raw value is an input to `ParseRouteMap`.
- `JSON.parse` is a foreign library call. It is the oracle parameter `parse`, which returns `ParseError` or an abstract `JsonValue`. If the JSON text has duplicate keys, which one wins is left to the oracle.
- The `console.warn` and `console.error` calls in `parseRouteMap` are logging with no effect on the result.
- Properties that the finite map does not list are not modelled. In JavaScript a lookup can find such a property: an inherited one, such as `constructor`, or an array's own `length`. Each of them is a non-string, and the string guard maps non-strings to nothing, just as an absent key is. So the finite map gives the same result.
- JavaScript strings are sequences of UTF-16 code units, while Dafny's `char` is a Unicode scalar value. Only `/` is inspected, so this makes no difference to the result.
- JavaScript's regular-expression engine is not modelled. Only the two anchored slash patterns matter, and they are written as the trimming functions.
- The forwarding proxy in `app/[...path]/route.ts` is not part of this model. It rebuilds the request, strips hop-by-hop headers, returns 404 and relays the upstream response, all of which is HTTP and network I/O around the resolver.
