/** The request and error vocabulary shared by the client (src/types/common.ts),
    and the record helpers used for JavaScript objects with string keys. */
module CommonTypes {
  import opened Wrappers

  datatype HttpMethod = GET | POST | PUT | DELETE | PATCH

  /** The closed error taxonomy of the client. */
  datatype ApiErrorType = NetworkError | AuthError | ApiError | ValidationError

  /** The error value returned to callers: `type`, `message`, optional
      `statusCode` and optional `details`. */
  datatype DiscogsApiError = DiscogsApiError(
    kind: ApiErrorType,
    message: string,
    statusCode: Option<int>,
    details: Option<Thrown>)

  /** A JavaScript record as the sequence `Object.entries` yields: one
      (key, value) pair per own property, in enumeration order. */
  type Entries<V> = seq<(string, V)>

  /** `Record<string, string>`, the type of query parameters and headers. */
  type QueryParams = Entries<string>

  /** The keys of a record. */
  function Keys<V>(r: Entries<V>): (ks: set<string>)
    ensures forall i :: 0 <= i < |r| ==> r[i].0 in ks
    ensures forall k :: k in ks ==> exists i :: 0 <= i < |r| && r[i].0 == k
  {
    if r == [] then {} else Keys(r[..|r| - 1]) + {r[|r| - 1].0}
  }

  /** The value stored under `k`; when a key appears more than once the
      later entry wins, as it does for repeated property assignments. */
  function Get<V>(r: Entries<V>, k: string): (v: Option<V>)
    ensures v.Some? <==> k in Keys(r)
  {
    if r == [] then None
    else if r[|r| - 1].0 == k then Some(r[|r| - 1].1)
    else Get(r[..|r| - 1], k)
  }

  /** No key occurs twice, as in every JavaScript object. */
  predicate DistinctKeys<V>(r: Entries<V>) {
    forall i, j :: 0 <= i < j < |r| ==> r[i].0 != r[j].0
  }

  /** The property assignment `r[k] = v`: an existing key keeps its place
      and takes the new value, a new key goes to the end. */
  function Set<V>(r: Entries<V>, k: string, v: V): (s: Entries<V>)
    ensures |s| == if k in Keys(r) then |r| else |r| + 1
  {
    if k !in Keys(r) then r + [(k, v)]
    else
      var last := r[|r| - 1];
      var init := r[..|r| - 1];
      if last.0 == k then init + [(k, v)]
      else
        assert k in Keys(init);
        Set(init, k, v) + [last]
  }

  /** The last entry of `r + [e]` decides the value of its key, and the
      other keys keep theirs. */
  lemma GetAppend<V>(r: Entries<V>, e: (string, V))
    ensures forall j :: Get(r + [e], j) == (if j == e.0 then Some(e.1) else Get(r, j))
    ensures Keys(r + [e]) == Keys(r) + {e.0}
  {
    assert (r + [e])[..|r|] == r;
  }

  /** After `r[k] = v`, `k` holds `v` and every other key keeps its value. */
  lemma {:induction false} SetGet<V>(r: Entries<V>, k: string, v: V)
    ensures forall j :: Get(Set(r, k, v), j) == (if j == k then Some(v) else Get(r, j))
  {
    if k !in Keys(r) {
      GetAppend(r, (k, v));
    } else {
      var last := r[|r| - 1];
      var init := r[..|r| - 1];
      assert r == init + [last];
      GetAppend(init, last);
      if last.0 == k {
        GetAppend(init, (k, v));
      } else {
        SetGet(init, k, v);
        GetAppend(Set(init, k, v), last);
      }
    }
  }

  /** The keys after `r[k] = v` are those of `r` and `k`. */
  lemma {:induction false} SetKeys<V>(r: Entries<V>, k: string, v: V)
    ensures Keys(Set(r, k, v)) == Keys(r) + {k}
  {
    if k !in Keys(r) {
      GetAppend(r, (k, v));
    } else {
      var last := r[|r| - 1];
      var init := r[..|r| - 1];
      assert r == init + [last];
      GetAppend(init, last);
      if last.0 == k {
        GetAppend(init, (k, v));
      } else {
        SetKeys(init, k, v);
        GetAppend(Set(init, k, v), last);
      }
    }
  }

  /** The assignment never moves the first key of a non-empty record. */
  lemma {:induction false} SetFirst<V>(r: Entries<V>, k: string, v: V)
    requires r != []
    ensures Set(r, k, v)[0].0 == r[0].0
  {
    if k in Keys(r) {
      var init := r[..|r| - 1];
      if r[|r| - 1].0 != k && init != [] {
        SetFirst(init, k, v);
      }
    }
  }

  /** Distinct keys stay distinct under assignment. */
  lemma {:induction false} SetDistinct<V>(r: Entries<V>, k: string, v: V)
    requires DistinctKeys(r)
    ensures DistinctKeys(Set(r, k, v))
  {
    if k !in Keys(r) {
      forall i | 0 <= i < |r| ensures r[i].0 != k { }
    } else {
      var last := r[|r| - 1];
      var init := r[..|r| - 1];
      assert DistinctKeys(init) by {
        forall i, j | 0 <= i < j < |init| ensures init[i].0 != init[j].0 {
          assert r[i] == init[i] && r[j] == init[j];
        }
      }
      if last.0 == k {
        forall i | 0 <= i < |init| ensures init[i].0 != k {
          assert r[i] == init[i];
        }
      } else {
        assert k in Keys(init);
        SetDistinct(init, k, v);
        SetKeys(init, k, v);
        forall i | 0 <= i < |init| ensures init[i].0 != last.0 {
          assert r[i] == init[i];
        }
        assert last.0 !in Keys(init);
        forall i | 0 <= i < |Set(init, k, v)| ensures Set(init, k, v)[i].0 != last.0 {
          assert Set(init, k, v)[i].0 in Keys(init) + {k};
        }
      }
    }
  }

  /** The object spread `{...target, ...source}`: the properties of
      `source` assigned to a copy of `target`, in entry order. */
  function Spread<V>(target: Entries<V>, source: Entries<V>): Entries<V> {
    if source == [] then target
    else
      var last := source[|source| - 1];
      Set(Spread(target, source[..|source| - 1]), last.0, last.1)
  }

  /** A key of the spread object takes its value from `source` when `source`
      has it (the later spread wins), and from `target` otherwise. */
  lemma {:induction false} SpreadGet<V>(target: Entries<V>, source: Entries<V>)
    ensures forall k :: Get(Spread(target, source), k) == (if k in Keys(source) then Get(source, k) else Get(target, k))
  {
    if source != [] {
      var init := source[..|source| - 1];
      var last := source[|source| - 1];
      assert source == init + [last];
      SpreadGet(target, init);
      SetGet(Spread(target, init), last.0, last.1);
      GetAppend(init, last);
    }
  }

  /** The keys of the spread object are those of both records. */
  lemma {:induction false} SpreadKeys<V>(target: Entries<V>, source: Entries<V>)
    ensures Keys(Spread(target, source)) == Keys(target) + Keys(source)
  {
    if source != [] {
      var init := source[..|source| - 1];
      var last := source[|source| - 1];
      assert source == init + [last];
      SpreadKeys(target, init);
      SetKeys(Spread(target, init), last.0, last.1);
      GetAppend(init, last);
    }
  }

  /** The first key of `target` stays first in the spread object. */
  lemma {:induction false} SpreadFirst<V>(target: Entries<V>, source: Entries<V>)
    requires target != []
    ensures Spread(target, source) != [] && Spread(target, source)[0].0 == target[0].0
  {
    if source != [] {
      var init := source[..|source| - 1];
      var last := source[|source| - 1];
      SpreadFirst(target, init);
      SetFirst(Spread(target, init), last.0, last.1);
    }
  }

  /** Spreading into a record with distinct keys keeps them distinct. */
  lemma {:induction false} SpreadDistinct<V>(target: Entries<V>, source: Entries<V>)
    requires DistinctKeys(target)
    ensures DistinctKeys(Spread(target, source))
  {
    if source != [] {
      var init := source[..|source| - 1];
      var last := source[|source| - 1];
      SpreadDistinct(target, init);
      SetDistinct(Spread(target, init), last.0, last.1);
    }
  }
}
