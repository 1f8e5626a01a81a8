# ParameterResolver: route-parameter resolution, modelled in Dafny

This project models the core of `ParameterResolver` from
laravel-resource-links (`src/ParameterResolver.php`). The class decides which
value each parameter of a route handler's signature receives. Its inputs are
an optional primary Eloquent model and an array of default parameters. A
parameter is resolved in three steps:

1. by its name, when the provided parameters have that key;
2. otherwise by type, taking the first provided object whose exact class is
   the parameter's declared class;
3. otherwise it resolves to null.

`forRoute` collects the resolutions in signature order and drops the nulls.
`canRouteBeConstructed` hands that array to the URL generator and reports
whether a URL could be built.

The code is pure: no method writes the two fields after the constructor sets
them. So the model is written as datatypes, functions and lemmas.

- `php_arrays.dfy` (module `PhpArrays`) holds PHP values and PHP's ordered
  arrays. An array is a sequence of `(key, value)` entries with pairwise
  distinct keys. A key is a string (`Name`) or an integer (`Pos`). The file
  models the array operations the resolver relies on:
  - `array_key_exists` and `$a[$k]`;
  - iteration over values;
  - assignment `$a[$k] = $v`;
  - `array_merge`, with integer keys renumbered from 0;
  - the collection `reject` of null values.
- `parameter_resolver.dfy` (module `ParameterResolver`) holds the resolver
  itself. The resolver is a datatype of its two fields, and each of
  `getProvidedParameters`, `resolveParameter`, `forRoute` and
  `canRouteBeConstructed` is a function.
- `scenarios.dfy` (module `Scenarios`) computes concrete resolutions from the
  model.

The fields are set once and never written again. So `forRoute` and
`getProvidedParameters` leave `model` and `defaultParameters` unchanged. In
the model this holds by construction, because `Resolver` is an immutable
value.

The provided parameters are a PHP array, not a list of values:
- The defaults may hold integer keys as well as string keys.
- Name lookup uses the keys that `array_merge` produces. The merge keeps
  string keys and renumbers integer keys.

## Model

| member | source | states |
|---|---|---|
| `PhpArrays.KeyExists` | src/ParameterResolver.php:64 | No ensures of its own: `array_key_exists` as "some entry has the key". Pinned down by `Get`, `RejectNullKeys`, `ProvidedNameLookup` and `ResolveParameter` |
| `PhpArrays.Get` | src/ParameterResolver.php:65 | `$providedParameters[$name]` returns the value of the entry with that key; all entries with the key carry that value |
| `PhpArrays.Values` | src/ParameterResolver.php:68 | No ensures of its own: the values in iteration order. Pinned down by `ProvidedValues` and `FirstOfClass` |
| `PhpArrays.Put` | src/ParameterResolver.php:56 | `$a[$k] = $v` as `array_merge` uses it for string keys. A present key is overwritten in place, with every other entry unchanged. A new key is appended last |
| `PhpArrays.Renumber` | src/ParameterResolver.php:56 | Keeps the length, the values and the string keys. The i-th integer key becomes `next` plus the number of integer keys before it, so integer keys are renumbered consecutively in order |
| `PhpArrays.MergeInto` | src/ParameterResolver.php:56 | No ensures of its own: the entry-by-entry loop of `array_merge`, a string key assigned with `Put`, an integer key replaced by the next free one. Pinned down by `MergeWithoutClash` |
| `PhpArrays.ArrayMerge` | src/ParameterResolver.php:56 | No ensures of its own: `array_merge` as `MergeInto` from an empty array. Pinned down by `MergeWithoutClash`, through which `ProvidedParameters` states the merge's result |
| `PhpArrays.MergeWithoutClash` | src/ParameterResolver.php:56 | When no string key of the later array is already present, `array_merge` appends that array renumbered. Nothing is overwritten and the order is kept |
| `PhpArrays.RejectNull` | src/ParameterResolver.php:37-39 | Every entry of the result comes from the input under the same key and value, and none is null |
| `PhpArrays.RejectNullKeys` | src/ParameterResolver.php:37-39 | A key survives `reject` if and only if its value is not null, and it keeps that value |
| `PhpArrays.RejectNullKeepsOrder` | src/ParameterResolver.php:37-39 | The surviving entries keep their relative order from the input |
| `ParameterResolver.ModelIncluded` | src/ParameterResolver.php:55 | No ensures of its own: `optional($this->model)->exists`, a present model that exists. Pinned down by `ProvidedParameters`, `ProvidedValues` and `TransientModelNotResolved` |
| `ParameterResolver.ProvidedParameters` | src/ParameterResolver.php:53-58 | An existing model sits under key 0, followed by the defaults renumbered from 1. A model that is absent or not existing gives exactly the defaults |
| `ParameterResolver.ProvidedNameLookup` | src/ParameterResolver.php:56 | A string key is present among the provided parameters if and only if it is a key of the defaults, with the same value. The model never adds a string key |
| `ParameterResolver.ProvidedValues` | src/ParameterResolver.php:55-57 | The type scan visits the model first, when it is included, and then the defaults' values in their order |
| `ParameterResolver.IsInstanceOf` | src/ParameterResolver.php:69-73 | No ensures of its own: an object whose exact class is the declared class; scalars are skipped. Pinned down by `FirstOfClass`, `ResolveParameter` and `ModelWinsTypeTie` |
| `ParameterResolver.FirstOfClass` | src/ParameterResolver.php:68-78 | Null if and only if no value is an object of exactly the class. Otherwise it is the value at the least index that is such an object |
| `ParameterResolver.ResolveParameter` | src/ParameterResolver.php:60-79 | A present name key gives its value, of whatever type, null included. Without it: null if and only if no provided value is an object of exactly the declared class, and otherwise the first such value in order |
| `ParameterResolver.MapWithKeys` | src/ParameterResolver.php:28-36 | No ensures of its own: each signature name paired with its resolution, in signature order. Pinned down by `ForRouteEntry`, `ForRouteKeysInSignature` and `ForRouteInSignatureOrder` |
| `ParameterResolver.ForRoute` | src/ParameterResolver.php:24-40 | No value in the result is null |
| `ParameterResolver.ForRouteEntry` | src/ParameterResolver.php:28-39 | A signature name is a key of the result if and only if its resolution is not null, and then it maps to that resolution. Falsy values are kept |
| `ParameterResolver.ForRouteKeysInSignature` | src/ParameterResolver.php:28-36 | Every key of the result is the name of a signature parameter |
| `ParameterResolver.ForRouteInSignatureOrder` | src/ParameterResolver.php:28-39 | The keys of the result come in signature order |
| `ParameterResolver.NameMatchWins` | src/ParameterResolver.php:64-66 | A default stored under the parameter's name is the resolution, whatever its type, even when a model or another object of the declared class is provided |
| `ParameterResolver.ExplicitNullOmitted` | src/ParameterResolver.php:64-66 | A null stored under a parameter's name blocks the type fallback, so `forRoute` omits the parameter whatever objects are provided |
| `ParameterResolver.ModelWinsTypeTie` | src/ParameterResolver.php:55-74 | Without a name match, an existing model of exactly the declared class is the resolution. It wins over any default of the same class |
| `ParameterResolver.DefaultsDecideTypeMatch` | src/ParameterResolver.php:68-78 | Without a name match, and with no included model of the declared class, the resolution is the first default value that is an object of exactly that class, or null |
| `ParameterResolver.TransientModelNotResolved` | src/ParameterResolver.php:55-57 | A model that does not exist is never the resolution, unless the defaults themselves hold it |
| `ParameterResolver.CanRouteBeConstructed` | src/ParameterResolver.php:42-51 | True if and only if the generator builds the route from `forRoute`'s result. False if and only if it reports a URL-generation failure. Any other failure propagates unchanged |
| `Scenarios.TeamWithoutModel` | src/ParameterResolver.php:24-40 | Defaults `{team: Team#7}` with handler `(Team $team, Comment $comment)` give `{team: Team#7}` |
| `Scenarios.ModelByType` | src/ParameterResolver.php:24-40 | Existing Post#1 with handler `(Post $post)` gives `{post: Post#1}` |
| `Scenarios.ModelAndNamedDefault` | src/ParameterResolver.php:24-40 | Existing Post#1 and defaults `{author: User#3}` give `{post: Post#1, author: User#3}` |
| `Scenarios.TransientModelIgnored` | src/ParameterResolver.php:55-57 | A non-existing Post#1 resolves nothing for `(Post $post)` |
| `Scenarios.ExplicitNullHidesObject` | src/ParameterResolver.php:64-66 | `{post: null, other: Post#2}` resolves nothing for `(Post $post)` |
| `Scenarios.FalsyValuesKept` | src/ParameterResolver.php:37-39 | `0` and `false` are passed on |
| `Scenarios.EmptyStringKept` | src/ParameterResolver.php:37-39 | `""` is passed on |
| `Scenarios.MergeRenumbersPositionalDefaults` | src/ParameterResolver.php:56 | With an existing model, a default under integer key 0 moves to key 1, and a string key stays |

## Left out

- The framework's `Route` object is reduced to an action name and a list of `(name, declared class)` pairs. Its reflection (`signatureParameters`, `getActionName`) is not modelled.
- URL generation through `action()` is a function parameter. It returns success, a URL-generation failure, or another failure.
- A signature parameter without a type, or with a union type, makes `getType()->getName()` fail. The model does not represent this: every parameter has exactly one declared class name.
- Eloquent's `exists` attribute is a boolean field on the model, named `persisted` because `exists` is a Dafny keyword.
- An object's identity is a class name and a number. PHP values other than null, booleans, integers, strings and objects (floats, arrays, resources) are not modelled. No class hierarchy is needed, because only the exact class is compared.
- PHP coerces numeric-string keys such as `"1"` to integers. The model does not.
- The internals of the `collect` and `optional` helpers are not modelled. Only their effect on arrays and the optional model is.
- `ArrayMerge` is modelled in general, including a later string key overwriting an earlier one. Properties are proved only for the clash-free case. That is the only case `getProvidedParameters` reaches, because the model's array has no string key.
