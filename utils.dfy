/**
 The helpers of lib/utils.ts: reading an image type off a URL, the image-type whitelist,
 pruning `undefined` values from an object tree in place, and defaulting the caller's options.
 */
module Utils {
  import opened JsRuntime

  // ---------------------------------------------------------------------------------------------
  // findImageTypeFromUrl
  // ---------------------------------------------------------------------------------------------

  /**
   The image type of a URL: the text after its last '.', cut at the first '?' of that text.
   The case is kept, and a '.' inside the query string counts like any other.
   */
  function FindImageTypeFromUrl(url: string): (t: string)
    ensures '.' !in t && '?' !in t
  {
    // `url.split('.').pop() || ''`: split never returns an empty list, and `'' || ''` is `''`
    var afterLastDot := Last(Split(url, '.'));
    // `[type] = type.split('?')`
    Split(afterLastDot, '?')[0]
  }

  /**
   Positions `i` and `j` delimit the image type of `url`: `i` is just after the last '.' (or 0
   without one) and `j` is the first '?' at or after `i` (or the end).
   */
  predicate IsTypeSlice(url: string, i: nat, j: nat)
  {
    && i <= j <= |url|
    && (i == 0 || url[i - 1] == '.')
    && (forall k | i <= k < |url| :: url[k] != '.')
    && (forall k | i <= k < j :: url[k] != '?')
    && (j == |url| || url[j] == '?')
  }

  /** Whatever positions delimit the image type, the function returns exactly that slice. */
  lemma FindImageTypeFromUrlIsSlice(url: string, i: nat, j: nat)
    requires IsTypeSlice(url, i, j)
    ensures FindImageTypeFromUrl(url) == url[i..j]
  {
    LastPieceIsTail(url, '.', i);
    var tail := url[i..];
    assert tail[..j - i] == url[i..j];
    FirstPieceIsHead(tail, '?', j - i);
  }

  /**
   Such positions always exist, so the image type is a slice of the URL: never longer than it,
   with its letters unchanged.
   */
  lemma FindImageTypeFromUrlHasSlice(url: string)
    ensures exists i: nat, j: nat :: IsTypeSlice(url, i, j) && FindImageTypeFromUrl(url) == url[i..j]
    ensures |FindImageTypeFromUrl(url)| <= |url|
  {
    var i: nat := LastIndexOf(url, '.') + 1;
    var q := IndexOf(url[i..], '?');
    var j: nat := if q < 0 then |url| else i + q;
    assert IsTypeSlice(url, i, j);
    FindImageTypeFromUrlIsSlice(url, i, j);
  }

  /** A URL ending in `.ext?query` has type `ext`, whatever the query holds besides a '.'. */
  lemma FindImageTypeFromUrlWithQuery(path: string, ext: string, query: string)
    requires '.' !in ext && '?' !in ext && '.' !in query
    ensures FindImageTypeFromUrl(path + "." + ext + "?" + query) == ext
  {
    var url := path + "." + ext + "?" + query;
    var i, j := |path| + 1, |path| + 1 + |ext|;
    assert url[i..j] == ext && url[i..] == ext + "?" + query;
    FindImageTypeFromUrlIsSlice(url, i, j);
  }

  /** A URL ending in `.ext` has type `ext`, letter case kept: `'image.PNG'` gives `'PNG'`. */
  lemma FindImageTypeFromUrlWithoutQuery(path: string, ext: string)
    requires '.' !in ext && '?' !in ext
    ensures FindImageTypeFromUrl(path + "." + ext) == ext
  {
    var url := path + "." + ext;
    var i := |path| + 1;
    assert url[i..] == ext;
    FindImageTypeFromUrlIsSlice(url, i, |url|);
  }

  /** A URL without a '.' yields its text up to the first '?'. */
  lemma FindImageTypeFromUrlWithoutDot(url: string)
    requires '.' !in url
    ensures var q := IndexOf(url, '?'); FindImageTypeFromUrl(url) == if q < 0 then url else url[..q]
  {
    var q := IndexOf(url, '?');
    FindImageTypeFromUrlIsSlice(url, 0, if q < 0 then |url| else q);
  }

  /** A '.' inside the query string wins over the extension: `'a.png?x=1.2'` gives `'2'`. */
  lemma FindImageTypeFromUrlDotInQueryWins(path: string, ext: string, query: string, tail: string)
    requires '.' !in tail && '?' !in tail
    ensures FindImageTypeFromUrl(path + "." + ext + "?" + query + "." + tail) == tail
  {
    FindImageTypeFromUrlWithoutQuery(path + "." + ext + "?" + query, tail);
  }

  /** `'image'` gives `'image'` and `''` gives `''`. */
  lemma FindImageTypeFromUrlExamples()
    ensures FindImageTypeFromUrl("image") == "image"
    ensures FindImageTypeFromUrl("") == ""
  {
    FindImageTypeFromUrlWithoutDot("image");
    FindImageTypeFromUrlWithoutDot("");
  }

  // ---------------------------------------------------------------------------------------------
  // isImageTypeValid
  // ---------------------------------------------------------------------------------------------

  /** The image extensions the scraper recognises, compared case-sensitively. */
  const ValidImageTypes: seq<string> :=
    ["apng", "bmp", "gif", "ico", "cur", "jpg", "jpeg", "jfif", "pjpeg", "pjp", "png", "svg", "tif", "tiff", "webp"]

  /** Membership in the whitelist; every listed type is three to five lower-case letters. */
  function IsImageTypeValid(t: string): (valid: bool)
    ensures valid ==> 3 <= |t| <= 5 && forall k | 0 <= k < |t| :: 'a' <= t[k] <= 'z'
  {
    t in ValidImageTypes
  }

  /** The whitelist holds fifteen different types. */
  lemma ValidImageTypesAreFifteen()
    ensures |ValidImageTypes| == 15
    ensures forall a, b | 0 <= a < b < |ValidImageTypes| :: ValidImageTypes[a] != ValidImageTypes[b]
  {
  }

  /** 'png' is valid, 'foo' is not, and neither is an upper-case spelling of a valid type. */
  lemma IsImageTypeValidExamples()
    ensures IsImageTypeValid("png")
    ensures !IsImageTypeValid("foo")
    ensures !IsImageTypeValid("PNG")
  {
  }

  // ---------------------------------------------------------------------------------------------
  // removeNestedUndefinedValues
  // ---------------------------------------------------------------------------------------------

  /** The properties of `m` whose value is not `undefined`, each with its value unchanged. */
  function StripUndefined(m: map<string, Value>): (r: map<string, Value>)
    ensures forall k <- r :: k in m && r[k] == m[k] && r[k] != Undefined
    ensures forall k <- m | m[k] != Undefined :: k in r
    ensures Undefined !in r.Values
  {
    map k | k in m && m[k] != Undefined :: m[k]
  }

  /** Stripping twice is stripping once. */
  lemma StripUndefinedIsIdempotent(m: map<string, Value>)
    ensures StripUndefined(StripUndefined(m)) == StripUndefined(m)
  {
  }

  /** A map without `undefined` values is left as it is. */
  lemma StripUndefinedKeepsCleanMaps(m: map<string, Value>)
    requires Undefined !in m.Values
    ensures StripUndefined(m) == m
  {
    forall k <- m ensures m[k] != Undefined {
      assert m[k] in m.Values;
    }
  }

  /** Deleting a property that holds no object reference leaves the referenced objects alone. */
  lemma RefsOfWithoutPlainValue(m: map<string, Value>, key: string)
    requires key in m && !m[key].Ref?
    ensures RefsOf(m - {key}) == RefsOf(m)
  {
    forall c <- RefsOf(m) ensures c in RefsOf(m - {key}) {
      var k :| k in m && m[k].Ref? && m[k].obj == c;
      assert k in m - {key};
    }
  }

  /**
   `p` is what is left of the property map `m` once the first `i` of its entries `es` were
   visited: the later entries are still there, nothing was added or changed, only visited
   `undefined` properties are gone.
   */
  ghost predicate PrunedUpTo(p: map<string, Value>, m: map<string, Value>, es: seq<(string, Value)>, i: nat)
  {
    && IsEntriesOf(es, m)
    && i <= |es|
    && (forall j | i <= j < |es| :: es[j].0 in p && p[es[j].0] == es[j].1)
    && (forall k <- p :: k in m && p[k] == m[k])
    && (forall k <- m | !m[k].Undefined? :: k in p)
    && (forall j | 0 <= j < i :: es[j].1.Undefined? ==> es[j].0 !in p)
  }

  /** Visiting entry `i` (deleting it when `undefined`) moves the pruning on by one entry. */
  lemma PrunedUpToStep(p: map<string, Value>, p': map<string, Value>, m: map<string, Value>,
                       es: seq<(string, Value)>, i: nat)
    requires PrunedUpTo(p, m, es, i) && i < |es|
    requires p' == if es[i].1.Undefined? then p - {es[i].0} else p
    ensures PrunedUpTo(p', m, es, i + 1)
  {
  }

  /** Once every entry of `m` was visited, what is left is `m` stripped. */
  lemma PrunedUpToEnd(p: map<string, Value>, m: map<string, Value>, es: seq<(string, Value)>)
    requires PrunedUpTo(p, m, es, |es|)
    ensures p == StripUndefined(m)
  {
    forall k <- m | m[k].Undefined? ensures k !in p {
      var j :| 0 <= j < |es| && es[j].0 == k;
    }
  }

  /** Everything reachable through the object values among the first `n` entries. */
  ghost function ReachOfEntries(es: seq<(string, Value)>, n: nat): set<JsObject>
    requires n <= |es|
  {
    if n == 0 then {}
    else
      var v := es[n - 1].1;
      ReachOfEntries(es, n - 1) + (if v.Ref? then Reach(v.obj) else {})
  }

  /** The objects reached through one entry are among those reached through all of them. */
  lemma {:induction false} ReachOfEntriesCovers(es: seq<(string, Value)>, n: nat, j: nat)
    requires j < n <= |es| && es[j].1.Ref?
    ensures Reach(es[j].1.obj) <= ReachOfEntries(es, n)
  {
    if j < n - 1 {
      ReachOfEntriesCovers(es, n - 1, j);
    }
  }

  /** A kid cannot reach its parent. */
  lemma ParentIsOutOfKidReach(o: JsObject, c: JsObject)
    requires c.height < o.height
    ensures o !in Reach(c)
  {
    if o in Reach(c) {
      ReachIsLower(c, o);
    }
  }

  /** Everything an object reaches other than itself is reached through one of its entries. */
  lemma ReachOfObjectIsReachOfEntries(o: JsObject, m: map<string, Value>, es: seq<(string, Value)>)
    requires o.kids == RefsOf(m) && IsEntriesOf(es, m)
    ensures forall x <- Reach(o) | x != o :: x in ReachOfEntries(es, |es|)
  {
    forall x <- Reach(o) | x != o ensures x in ReachOfEntries(es, |es|) {
      var c :| c in o.kids && c.height < o.height && x in Reach(c);
      var k :| k in m && m[k].Ref? && m[k].obj == c;
      var j :| 0 <= j < |es| && es[j].0 == k;
      ReachOfEntriesCovers(es, |es|, j);
    }
  }

  /**
   Every object `o` reaches, other than `o` itself, holds its properties of the snapshot `before`,
   pruned for the objects in `done` and untouched for the others.
   */
  ghost predicate PrunedThrough(o: JsObject, before: map<JsObject, map<string, Value>>, done: set<JsObject>)
    reads Reach(o)
  {
    forall x <- Reach(o) | x != o ::
      x in before && x.props == if x in done then StripUndefined(before[x]) else before[x]
  }

  /** A fresh snapshot of the reachable objects is pruned through no object at all. */
  lemma SnapshotIsPrunedThroughNothing(o: JsObject, before: map<JsObject, map<string, Value>>)
    requires before == map x | x in Reach(o) :: x.props
    ensures PrunedThrough(o, before, {})
  {
  }

  /** Once the entries of `o` cover everything it reaches, every reached object is pruned. */
  lemma PrunedThroughAll(o: JsObject, before: map<JsObject, map<string, Value>>,
                         m: map<string, Value>, es: seq<(string, Value)>)
    requires o.kids == RefsOf(m) && IsEntriesOf(es, m)
    requires PrunedThrough(o, before, ReachOfEntries(es, |es|))
    ensures forall x <- Reach(o) | x != o :: x in before && x.props == StripUndefined(before[x])
  {
    ReachOfObjectIsReachOfEntries(o, m, es);
  }

  /**
   Deletes, in place, every property whose value is `undefined` from `obj` and from every
   object reachable from it, and returns `obj` itself. Only truthy object values are entered,
   so `null`, `0`, `''` and `false` stay, and an object emptied by the pruning stays as `{}`.
   The object graph must be acyclic (a cycle would recurse forever); shared sub-objects are fine.
   */
  method RemoveNestedUndefinedValues(obj: JsObject) returns (r: JsObject)
    requires ValidGraph(obj)
    requires forall x <- Reach(obj) :: allocated(x)
    modifies Reach(obj)
    ensures r == obj
    ensures ValidGraph(obj)
    ensures forall x <- Reach(obj) :: x.props == StripUndefined(old(x.props))
    ensures forall x <- Reach(obj) :: Undefined !in x.props.Values
    decreases obj.height, 1
  {
    ghost var m0 := obj.props;
    ghost var before := map x | x in Reach(obj) :: x.props;
    assert obj in Reach(obj) && obj.kids == RefsOf(m0);
    var entries := Entries(obj.props);
    SnapshotIsPrunedThroughNothing(obj, before);
    assert ReachOfEntries(entries, 0) == {};
    for i := 0 to |entries|
      invariant ValidGraph(obj)
      invariant PrunedThrough(obj, before, ReachOfEntries(entries, i))
      invariant PrunedUpTo(obj.props, m0, entries, i)
    {
      ghost var p := obj.props;
      PruneEntry(obj, entries, i, before);
      PrunedUpToStep(p, obj.props, m0, entries, i);
    }
    PrunedThroughAll(obj, before, m0, entries);
    PrunedUpToEnd(obj.props, m0, entries);
    forall x <- Reach(obj) | x != obj ensures x.props == StripUndefined(old(x.props)) {
      assert before[x] == old(x.props);
    }
    return obj;
  }

  /**
   The `forEach` callback of `removeNestedUndefinedValues`, called with the entry list and the
   index `i` of the entry `[key, value]` of `obj`: a truthy object value is pruned in turn, an
   `undefined` one is deleted, anything else stays. The ghost snapshot `before` holds the
   properties every reachable object had when the loop started.
   */
  method PruneEntry(obj: JsObject, entries: seq<(string, Value)>, i: nat,
                    ghost before: map<JsObject, map<string, Value>>)
    requires ValidGraph(obj)
    requires forall x <- Reach(obj) :: allocated(x)
    requires i < |entries| && entries[i].0 in obj.props && obj.props[entries[i].0] == entries[i].1
    requires PrunedThrough(obj, before, ReachOfEntries(entries, i))
    modifies Reach(obj)
    ensures ValidGraph(obj)
    ensures obj.props == if entries[i].1.Undefined? then old(obj.props) - {entries[i].0} else old(obj.props)
    ensures forall x <- Reach(obj) | x != obj ::
      x.props == if entries[i].1.Ref? && x in Reach(entries[i].1.obj) then StripUndefined(old(x.props)) else old(x.props)
    ensures PrunedThrough(obj, before, ReachOfEntries(entries, i + 1))
    decreases obj.height, 0
  {
    var (key, value) := entries[i];
    assert obj in Reach(obj);
    if IsTruthy(value) && TypeOf(value) == "object" {
      var child := value.obj;
      assert child in obj.kids;
      KidReachIsContained(obj, child);
      ParentIsOutOfKidReach(obj, child);
      var _ := RemoveNestedUndefinedValues(child);
    } else if value.Undefined? {
      RefsOfWithoutPlainValue(obj.props, key);
      obj.props := obj.props - {key};
    }
    ghost var done := ReachOfEntries(entries, i + 1);
    assert done == ReachOfEntries(entries, i) + (if value.Ref? then Reach(value.obj) else {});
    forall x <- Reach(obj) | x != obj
      ensures x in before && x.props == if x in done then StripUndefined(before[x]) else before[x]
    {
      assert old(x in before && x.props == if x in ReachOfEntries(entries, i) then StripUndefined(before[x]) else before[x]);
      if value.Ref? && x in Reach(value.obj) {
        StripUndefinedIsIdempotent(before[x]);
      }
    }
  }

  /** Pruning twice has the effect of pruning once: the second call changes nothing. */
  method RemoveNestedUndefinedValuesTwice(obj: JsObject) returns (r: JsObject)
    requires ValidGraph(obj)
    requires forall x <- Reach(obj) :: allocated(x)
    modifies Reach(obj)
    ensures r == obj
    ensures ValidGraph(obj)
    ensures forall x <- Reach(obj) :: x.props == StripUndefined(old(x.props))
  {
    r := RemoveNestedUndefinedValues(obj);
    label Once:
    r := RemoveNestedUndefinedValues(r);
    forall x <- Reach(obj) ensures x.props == old@Once(x.props) {
      StripUndefinedKeepsCleanMaps(old@Once(x.props));
    }
  }

  /** `{ one: 1, two: undefined }` becomes `{ one: 1 }`. */
  method RemoveNestedUndefinedValuesFlatExample() returns (flat: JsObject)
    ensures flat.props == map["one" := Num(1.0)]
  {
    flat := new JsObject(map["one" := Num(1.0), "two" := Undefined], 0);
    assert RefsOf(flat.props) == {};
    assert Reach(flat) == {flat};
    var _ := RemoveNestedUndefinedValues(flat);
  }

  /** `{ one: 1, two: { three: undefined } }` becomes `{ one: 1, two: {} }`: the emptied object stays. */
  method RemoveNestedUndefinedValuesNestedExample() returns (outer: JsObject, inner: JsObject)
    ensures outer.props == map["one" := Num(1.0), "two" := Ref(inner)]
    ensures inner.props == map[]
  {
    inner := new JsObject(map["three" := Undefined], 0);
    assert RefsOf(inner.props) == {};
    assert Reach(inner) == {inner};
    outer := new JsObject(map["one" := Num(1.0), "two" := Ref(inner)], 1);
    assert outer.props["two"].obj == inner;
    assert RefsOf(outer.props) == {inner};
    assert Reach(outer) == {outer, inner};
    var _ := RemoveNestedUndefinedValues(outer);
  }

  // ---------------------------------------------------------------------------------------------
  // optionSetup
  // ---------------------------------------------------------------------------------------------

  /**
   How one option stands in the object the caller passes: left out, given as `undefined`,
   given as `null`, or given a value. Object spread copies every given property, `undefined`
   included; `??` replaces `undefined` and `null` alike.
   */
  datatype Prop<T> = Omitted | GivenUndefined | GivenNull | Given(value: T)

  /**
   The options object. `Tag` is the caller's custom meta-tag descriptor, whose shape only the
   custom-tag validator inspects; `others` holds every further option, passed through untouched.
   One JavaScript options object has exactly one representation when `others` holds none of the
   three named keys; `NamedOptionsApart` states that, and `OptionSetup` keeps it.
   */
  datatype Options<Tag> = Options(
    html: Prop<string>,
    onlyGetOpenGraphInfo: Prop<bool>,
    customMetaTags: Prop<seq<Tag>>,
    others: map<string, Value>)

  /** `others` holds none of the keys that have their own field. */
  predicate NamedOptionsApart<Tag>(options: Options<Tag>)
  {
    "html" !in options.others && "onlyGetOpenGraphInfo" !in options.others && "customMetaTags" !in options.others
  }

  /**
   `{ onlyGetOpenGraphInfo: false, ...ogsOptions }`: the flag defaults to `false` when the caller
   leaves it out, and everything the caller gives (an explicit `undefined` too) is kept as given.
   */
  function OptionSetup<Tag>(ogsOptions: Options<Tag>): (options: Options<Tag>)
    ensures ogsOptions.onlyGetOpenGraphInfo.Omitted? ==> options.onlyGetOpenGraphInfo == Given(false)
    ensures !ogsOptions.onlyGetOpenGraphInfo.Omitted? ==>
      options.onlyGetOpenGraphInfo == ogsOptions.onlyGetOpenGraphInfo
    ensures options.html == ogsOptions.html
    ensures options.customMetaTags == ogsOptions.customMetaTags
    ensures options.others == ogsOptions.others
    ensures NamedOptionsApart(ogsOptions) ==> NamedOptionsApart(options)
  {
    var defaults := Options(Omitted, Given(false), Omitted, map[]);
    Options(
      Spread(defaults.html, ogsOptions.html),
      Spread(defaults.onlyGetOpenGraphInfo, ogsOptions.onlyGetOpenGraphInfo),
      Spread(defaults.customMetaTags, ogsOptions.customMetaTags),
      defaults.others + ogsOptions.others)
  }

  /** Object spread for one property: a later given property overrides an earlier one. */
  function Spread<T>(earlier: Prop<T>, later: Prop<T>): Prop<T>
  {
    if later.Omitted? then earlier else later
  }

  /** Defaulting twice is defaulting once, and afterwards the flag is never left out. */
  lemma OptionSetupIsIdempotent<Tag>(ogsOptions: Options<Tag>)
    ensures OptionSetup(OptionSetup(ogsOptions)) == OptionSetup(ogsOptions)
    ensures !OptionSetup(ogsOptions).onlyGetOpenGraphInfo.Omitted?
  {
  }

  /** `optionSetup({})` and `optionSetup({ onlyGetOpenGraphInfo: true })`. */
  lemma OptionSetupExamples<Tag>()
    ensures OptionSetup<Tag>(Options(Omitted, Omitted, Omitted, map[]))
         == Options(Omitted, Given(false), Omitted, map[])
    ensures OptionSetup<Tag>(Options(Omitted, Given(true), Omitted, map[]))
         == Options(Omitted, Given(true), Omitted, map[])
  {
  }
}
