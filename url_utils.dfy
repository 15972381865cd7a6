/** The URL helpers of the client (src/utils/url.ts): `buildPath` fills the
    `{name}` and `:name` placeholders of an endpoint template, and
    `buildQueryString` serializes query parameters. */
module UrlUtils {
  import opened Wrappers
  import opened CommonTypes
  import opened JsString
  import FormUrlencoded
  import Utf8

  function BracePlaceholder(key: string): string { "{" + key + "}" }

  function ColonPlaceholder(key: string): string { ":" + key }

  /** One iteration of the loop in `buildPath`: the first `{key}`, then the
      first `:key`, is replaced by `String(value)`. */
  function ReplaceEntry(path: string, entry: (string, Scalar)): string {
    var v := ToText(entry.1);
    Replace(Replace(path, BracePlaceholder(entry.0), v), ColonPlaceholder(entry.0), v)
  }

  /** The entries applied to the template one after the other, in entry
      order, by `step`. */
  function ApplyEntries(template: string, pathParams: Entries<Scalar>, step: (string, (string, Scalar)) -> string): string {
    if pathParams == [] then template
    else step(ApplyEntries(template, pathParams[..|pathParams| - 1], step), pathParams[|pathParams| - 1])
  }

  /** The path `buildPath` computes: the entries applied to the template one
      after the other, in entry order. */
  function ResolvedPath(template: string, pathParams: Entries<Scalar>): string {
    ApplyEntries(template, pathParams, ReplaceEntry)
  }

  /** `buildPath(endpoint, pathParams)`, with `pathParams` given as its
      `Object.entries`. */
  method BuildPath(endpoint: string, pathParams: Entries<Scalar>) returns (path: string)
    ensures path == ResolvedPath(endpoint, pathParams)
    ensures pathParams == [] ==> path == endpoint
  {
    path := endpoint;
    for i := 0 to |pathParams|
      invariant path == ResolvedPath(endpoint, pathParams[..i])
    {
      var (key, value) := pathParams[i];
      path := Replace(path, BracePlaceholder(key), ToText(value));
      path := Replace(path, ColonPlaceholder(key), ToText(value));
      assert pathParams[..i + 1][..i] == pathParams[..i];
    }
    assert pathParams[..|pathParams|] == pathParams;
  }

  /** Applying two lists of entries one after the other is applying their
      concatenation: the result depends on the order of the entries only
      through this sequential application. */
  lemma {:induction false} ApplyEntriesAppend(template: string, first: Entries<Scalar>, second: Entries<Scalar>,
                                              step: (string, (string, Scalar)) -> string)
    ensures ApplyEntries(template, first + second, step) == ApplyEntries(ApplyEntries(template, first, step), second, step)
  {
    if second == [] {
      assert first + second == first;
    } else {
      var n := |second|;
      assert (first + second)[..|first + second| - 1] == first + second[..n - 1];
      ApplyEntriesAppend(template, first, second[..n - 1], step);
    }
  }

  /** One entry is one application of the step. */
  lemma ResolvedPathSingle(template: string, entry: (string, Scalar))
    ensures ResolvedPath(template, [entry]) == ReplaceEntry(template, entry)
  {
    ApplyEntriesSingle(template, entry, ReplaceEntry);
  }

  lemma ApplyEntriesSingle(template: string, entry: (string, Scalar), step: (string, (string, Scalar)) -> string)
    ensures ApplyEntries(template, [entry], step) == step(template, entry)
  {
    assert [entry][..0] == [];
  }

  lemma ResolvedPathAppend(template: string, first: Entries<Scalar>, second: Entries<Scalar>)
    ensures ResolvedPath(template, first + second) == ResolvedPath(ResolvedPath(template, first), second)
  {
    ApplyEntriesAppend(template, first, second, ReplaceEntry);
  }

  /** The template mentions a placeholder for `key`, in either form. */
  ghost predicate Mentions(template: string, key: string) {
    exists j :: OccursAt(template, BracePlaceholder(key), j) || OccursAt(template, ColonPlaceholder(key), j)
  }

  /** Entries whose placeholders do not occur leave the template as it is;
      in particular an empty `pathParams` returns the template unchanged, and
      no error is raised for placeholders nobody supplies. */
  lemma {:induction false} UnmentionedKeysLeaveTemplate(template: string, pathParams: Entries<Scalar>)
    requires forall i :: 0 <= i < |pathParams| ==> !Mentions(template, pathParams[i].0)
    ensures ResolvedPath(template, pathParams) == template
  {
    if pathParams != [] {
      var n := |pathParams|;
      UnmentionedKeysLeaveTemplate(template, pathParams[..n - 1]);
      assert !Mentions(template, pathParams[n - 1].0);
    }
  }

  /** A template holding `:key` (and no `{key}`), with no `:` before it:
      only that first `:key` is replaced, literally by the value, and
      everything after it, including a later `:key` or the rest of a longer
      name that starts with `key`, is kept verbatim. */
  lemma ResolveColonPlaceholder(before: string, key: string, after: string, value: Scalar)
    requires ':' !in before
    requires forall j :: !OccursAt(before + ColonPlaceholder(key) + after, BracePlaceholder(key), j)
    requires '$' !in ToText(value)
    ensures ResolvedPath(before + ColonPlaceholder(key) + after, [(key, value)]) == before + ToText(value) + after
  {
    var t := before + ColonPlaceholder(key) + after;
    var p := ColonPlaceholder(key);
    ResolvedPathSingle(t, (key, value));
    FirstOccurrenceAfter(before, p, after);
    LiteralSubstitution(p, t, |before|, ToText(value));
    assert t[..|before|] == before && t[|before| + |p|..] == after;
  }

  /** The same for a `{key}` placeholder with no `{` before it, when the
      result holds no `:` for the second replacement to find. */
  lemma ResolveBracePlaceholder(before: string, key: string, after: string, value: Scalar)
    requires '{' !in before
    requires ':' !in before + ToText(value) + after
    requires '$' !in ToText(value)
    ensures ResolvedPath(before + BracePlaceholder(key) + after, [(key, value)]) == before + ToText(value) + after
  {
    var t := before + BracePlaceholder(key) + after;
    var p := BracePlaceholder(key);
    ResolvedPathSingle(t, (key, value));
    FirstOccurrenceAfter(before, p, after);
    LiteralSubstitution(p, t, |before|, ToText(value));
    assert t[..|before|] == before && t[|before| + |p|..] == after;
    AbsentFirstChar(before + ToText(value) + after, ColonPlaceholder(key));
  }

  /** `"/releases/:release_id"` with `{release_id: id}` gives
      `"/releases/" + id`, e.g. `"/releases/249504"`. */
  lemma ReleasePathExample(id: string)
    requires '$' !in id
    ensures ResolvedPath("/releases/:release_id", [("release_id", Text(id))]) == "/releases/" + id
  {
    var t := "/releases/:release_id";
    assert t == "/releases/" + ColonPlaceholder("release_id") + "";
    AbsentFirstChar(t, BracePlaceholder("release_id"));
    ResolveColonPlaceholder("/releases/", "release_id", "", Text(id));
    assert "/releases/" + id + "" == "/releases/" + id;
  }

  /** Only the first `:id` is replaced: in `"/lists/:id/:id"` the second
      placeholder stays verbatim (for a number, `String` writes it in decimal,
      which holds no `$`). */
  lemma LaterDuplicateStays(value: Scalar)
    requires '$' !in ToText(value)
    ensures ResolvedPath("/lists/:id/:id", [("id", value)]) == "/lists/" + ToText(value) + "/:id"
  {
    var t := "/lists/:id/:id";
    assert t == "/lists/" + ColonPlaceholder("id") + "/:id";
    AbsentFirstChar(t, BracePlaceholder("id"));
    ResolveColonPlaceholder("/lists/", "id", "/:id", value);
  }

  /** Two entries: the second is applied to what the first left. */
  lemma TwoEntries(template: string, first: (string, Scalar), second: (string, Scalar), middle: string)
    requires ResolvedPath(template, [first]) == middle
    ensures ResolvedPath(template, [first, second]) == ResolvedPath(middle, [second])
  {
    ResolvedPathAppend(template, [first], [second]);
    assert [first] + [second] == [first, second];
  }

  /** A path without `:` or `{` holds no placeholder for any entry. */
  lemma NothingToReplace(path: string, entry: (string, Scalar))
    requires ':' !in path && '{' !in path
    ensures ResolvedPath(path, [entry]) == path
  {
    AbsentFirstChar(path, BracePlaceholder(entry.0));
    AbsentFirstChar(path, ColonPlaceholder(entry.0));
    UnmentionedKeysLeaveTemplate(path, [entry]);
  }

  /** A key that is a proper prefix of the placeholder's name captures the
      start of the placeholder; the longer key applied next finds nothing. */
  lemma PrefixKeyCaptures(before: string, key: string, rest: string, value: string, other: Scalar)
    requires ':' !in before && '{' !in before
    requires '{' !in key && ':' !in rest && '{' !in rest
    requires '$' !in value && ':' !in value && '{' !in value
    ensures ResolvedPath(before + ColonPlaceholder(key + rest), [(key, Text(value)), (key + rest, other)])
         == before + value + rest
  {
    var t := before + ColonPlaceholder(key + rest);
    var r := before + value + rest;
    assert t == before + ColonPlaceholder(key) + rest;
    assert '{' !in t by {
      assert t == before + [':'] + key + rest;
    }
    AbsentFirstChar(t, BracePlaceholder(key));
    ResolveColonPlaceholder(before, key, rest, Text(value));
    TwoEntries(t, (key, Text(value)), (key + rest, other), r);
    NothingToReplace(r, (key + rest, other));
  }

  /** The full name applied first replaces the whole placeholder; a key
      applied next finds nothing. */
  lemma FullKeyReplaces(before: string, key: string, value: string, other: (string, Scalar))
    requires ':' !in before && '{' !in before && '{' !in key
    requires '$' !in value && ':' !in value && '{' !in value
    ensures ResolvedPath(before + ColonPlaceholder(key), [(key, Text(value)), other]) == before + value
  {
    var t := before + ColonPlaceholder(key);
    var r := before + value;
    assert t == before + ColonPlaceholder(key) + "";
    assert '{' !in t by {
      assert t == before + [':'] + key;
    }
    AbsentFirstChar(t, BracePlaceholder(key));
    ResolveColonPlaceholder(before, key, "", Text(value));
    assert before + value + "" == r;
    TwoEntries(t, (key, Text(value)), other, r);
    NothingToReplace(r, other);
  }

  /** Applying `user` first: it captures the start of `:username`, and
      `username` then finds nothing. */
  lemma ShorterKeyFirst(user: string, username: string)
    requires '$' !in user && ':' !in user && '{' !in user
    ensures ResolvedPath("/users/:username", [("user", Text(user)), ("username", Text(username))])
         == "/users/" + user + "name"
  {
    assert "user" + "name" == "username";
    assert "/users/" + ColonPlaceholder("username") == "/users/:username";
    PrefixKeyCaptures("/users/", "user", "name", user, Text(username));
  }

  /** Applying `username` first: the whole placeholder is replaced, and
      `user` then finds nothing. */
  lemma LongerKeyFirst(user: string, username: string)
    requires '$' !in username && ':' !in username && '{' !in username
    ensures ResolvedPath("/users/:username", [("username", Text(username)), ("user", Text(user))])
         == "/users/" + username
  {
    assert "/users/" + ColonPlaceholder("username") == "/users/:username";
    FullKeyReplaces("/users/", "username", username, ("user", Text(user)));
  }

  /** Matching is textual: the key `user` rewrites the start of the
      placeholder `:username`, and the entry order decides the outcome. */
  lemma EntryOrderMatters(user: string, username: string)
    requires '$' !in user && ':' !in user && '{' !in user
    requires '$' !in username && ':' !in username && '{' !in username
    ensures ResolvedPath("/users/:username", [("user", Text(user)), ("username", Text(username))])
         == "/users/" + user + "name"
    ensures ResolvedPath("/users/:username", [("username", Text(username)), ("user", Text(user))])
         == "/users/" + username
    // The two orders agree only when the `username` value happens to be the
    // `user` value followed by `name`.
    ensures ResolvedPath("/users/:username", [("user", Text(user)), ("username", Text(username))])
         == ResolvedPath("/users/:username", [("username", Text(username)), ("user", Text(user))])
        <==> username == user + "name"
  {
    ShorterKeyFirst(user, username);
    LongerKeyFirst(user, username);
    SamePrefix("/users/", user + "name", username);
    assert "/users/" + user + "name" == "/users/" + (user + "name");
  }

  /** A common prefix does not change whether two strings are equal. */
  lemma SamePrefix(prefix: string, a: string, b: string)
    ensures prefix + a == prefix + b <==> a == b
  {
    if prefix + a == prefix + b {
      assert a == (prefix + a)[|prefix|..];
    }
  }

  /** The replacement is not literal: a value `$&` re-inserts the matched
      placeholder, so the template comes back unchanged. */
  lemma DollarAmpersandKeepsPlaceholder(before: string, key: string, after: string)
    requires ':' !in before
    requires forall j :: !OccursAt(before + ColonPlaceholder(key) + after, BracePlaceholder(key), j)
    ensures ResolvedPath(before + ColonPlaceholder(key) + after, [(key, Text("$&"))])
         == before + ColonPlaceholder(key) + after
  {
    var p := ColonPlaceholder(key);
    var t := before + p + after;
    var amp := "$&";
    ResolvedPathSingle(t, (key, Text(amp)));
    FirstOccurrenceAfter(before, p, after);
    MatchSubstitution(p, t, |before|);
    assert Replace(t, BracePlaceholder(key), amp) == t;
    assert t[..|before|] == before && t[|before| + |p|..] == after;
  }

  /** The replacement `$&` stands for the matched text. */
  lemma MatchSubstitution(matched: string, str: string, position: nat)
    requires position + |matched| <= |str|
    ensures GetSubstitution(matched, str, position, "$&") == matched
  {
    var amp := "$&";
    assert amp[0] == '$' && amp[1] == '&' && amp[2..] == [];
  }

  /** `buildQueryString(queryParams)`: `""` when the parameters are absent or
      have no keys; otherwise the pairs are appended, in entry order, to a
      fresh `URLSearchParams` and its serialization is returned. */
  method BuildQueryString(queryParams: Option<QueryParams>) returns (q: string)
    ensures q == FormUrlencoded.Serialize(queryParams.GetOr([]))
    ensures q == "" <==> (queryParams.None? || queryParams.value == [])
    ensures FormUrlencoded.Parse(Utf8.Encode(q)) == Some(queryParams.GetOr([]))
  {
    if queryParams.None? || |queryParams.value| == 0 {
      FormUrlencoded.ParseSerialize([]);
      return "";
    }
    var entries := queryParams.value;
    var params := new FormUrlencoded.SearchParams();
    for i := 0 to |entries|
      invariant params.list == entries[..i]
    {
      params.Append(entries[i].0, entries[i].1);
      assert entries[..i + 1] == entries[..i] + [entries[i]];
    }
    assert entries[..|entries|] == entries;
    q := params.ToString();
    FormUrlencoded.SerializeNonEmpty(entries);
  }
}
