/** The parts of the WHATWG `URL` object that the header signer uses: its
    query, its `searchParams` list, the update that rewrites the query after
    an `append`, and the `href` serialization returned by `toString()`. */
module WebUrl {
  import opened Wrappers
  import opened CommonTypes
  import FormUrlencoded
  import Utf8

  /** A parsed URL: everything before the query (scheme, authority and
      path) as `head`, the query and the fragment (each absent or a string,
      without their `?` and `#`), and the name-value list the URL parser
      read from the query. */
  datatype UrlRecord = UrlRecord(head: string, query: Option<string>, fragment: Option<string>, searchList: QueryParams)

  /** The URL serializer: the head, then `?` and the query when there is
      one, then `#` and the fragment when there is one. */
  function Serialization(head: string, query: Option<string>, fragment: Option<string>): string {
    head
    + (if query.Some? then "?" + query.value else "")
    + (if fragment.Some? then "#" + fragment.value else "")
  }

  /** The query a list of pairs is written back as: its serialization, or no
      query at all when that is empty. */
  function QueryOf(list: QueryParams): (q: Option<string>)
    ensures q.None? <==> list == []
  {
    if list == [] then None
    else
      FormUrlencoded.SerializeNonEmpty(list);
      Some(FormUrlencoded.Serialize(list))
  }

  /** The query written back parses to the list it was written from. */
  lemma QueryOfParses(list: QueryParams)
    requires list != []
    ensures FormUrlencoded.Parse(Utf8.Encode(QueryOf(list).value)) == Some(list)
  {
    FormUrlencoded.ParseSerialize(list);
  }

  /** A `URL` object. Its `searchParams` object is created with it and
      stays attached to it. */
  class Url {
    const head: string
    var query: Option<string>
    const fragment: Option<string>
    const searchParams: FormUrlencoded.SearchParams

    /** `new URL(input)` for an input the URL parser turned into `rec`. */
    constructor (rec: UrlRecord)
      ensures head == rec.head && query == rec.query && fragment == rec.fragment
      ensures searchParams.list == rec.searchList
      ensures fresh(searchParams)
    {
      head := rec.head;
      query := rec.query;
      fragment := rec.fragment;
      searchParams := new FormUrlencoded.SearchParams.FromList(rec.searchList);
    }

    /** `url.searchParams.append(name, value)`: the pair goes to the end of
        the list, and the URL's query is rewritten as the serialization of
        the whole list (which parses back to that list, by
        `QueryOfParses`), so the pairs already there are kept, in order. */
    method AppendSearchParam(name: string, value: string)
      modifies this, searchParams
      ensures searchParams.list == old(searchParams.list) + [(name, value)]
      ensures query == QueryOf(searchParams.list) && query.Some?
    {
      searchParams.Append(name, value);
      query := QueryOf(searchParams.list);
    }

    /** `url.toString()`, the `href`. */
    function Href(): (s: string)
      reads this
      ensures |head| <= |s| && s[..|head|] == head
    {
      Serialization(head, query, fragment)
    }
  }
}
