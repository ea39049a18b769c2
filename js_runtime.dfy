/**
 The slice of the JavaScript runtime that lib/utils.ts and lib/openGraphScraper.ts lean on:
 values, heap objects with own properties, truthiness and `typeof`, `String.prototype.split`
 with a one-character separator, and `Object.entries`.
 */
module JsRuntime {

  /** A JavaScript value. Arrays are objects whose keys are indices. */
  datatype Value =
    | Undefined
    | Null
    | Bool(b: bool)
    | Num(n: real)
    | Str(s: string)
    | Ref(obj: JsObject)

  /** JavaScript truthiness: `undefined`, `null`, `false`, `0` and `''` are falsy, every object is truthy. */
  predicate IsTruthy(v: Value)
  {
    match v
    case Undefined => false
    case Null => false
    case Bool(b) => b
    case Num(n) => n != 0.0
    case Str(s) => s != ""
    case Ref(_) => true
  }

  /** The `typeof` operator; note that `typeof null` is 'object'. */
  function TypeOf(v: Value): (t: string)
    ensures t == "object" <==> v.Null? || v.Ref?
  {
    match v
    case Undefined => "undefined"
    case Null => "object"
    case Bool(_) => "boolean"
    case Num(_) => "number"
    case Str(_) => "string"
    case Ref(_) => "object"
  }

  /** `value && typeof value === 'object'` holds of exactly the object references. */
  lemma TruthyObjectIsRef(v: Value)
    ensures (IsTruthy(v) && TypeOf(v) == "object") <==> v.Ref?
  {
  }

  /** The objects that the values of a property map refer to. */
  function RefsOf(m: map<string, Value>): set<JsObject>
  {
    set k | k in m && m[k].Ref? :: m[k].obj
  }

  /**
   A heap object. `props` holds its own enumerable properties (insertion order is not kept).
   The ghost constants `kids` and `height` record the shape of the object graph: `kids` are the
   objects its property values refer to, and every kid sits strictly lower, so the graph is acyclic
   (it may still share sub-objects).
   */
  class JsObject {
    var props: map<string, Value>
    ghost const kids: set<JsObject>
    ghost const height: nat

    ghost predicate Valid()
      reads this
    {
      && kids == RefsOf(props)
      && forall c <- kids :: c.height < height
    }

    constructor (props: map<string, Value>, ghost height: nat)
      requires forall c <- RefsOf(props) :: c.height < height
      ensures Valid()
      ensures this.props == props && this.height == height
    {
      this.props := props;
      this.kids := RefsOf(props);
      this.height := height;
    }
  }

  /** Every object reachable from `o` through property values, `o` included. */
  ghost function Reach(o: JsObject): set<JsObject>
    decreases o.height
  {
    {o} + (set c, x | c in o.kids && c.height < o.height && x in Reach(c) :: x)
  }

  /** Every object reachable from `o` keeps its `kids` in step with its properties. */
  ghost predicate ValidGraph(o: JsObject)
    reads Reach(o)
  {
    forall x <- Reach(o) :: x.Valid()
  }

  /** Objects reachable from `o` lie no higher than `o`. */
  lemma {:induction false} ReachIsLower(o: JsObject, x: JsObject)
    requires x in Reach(o)
    ensures x.height <= o.height
    decreases o.height
  {
    if x != o {
      var c :| c in o.kids && c.height < o.height && x in Reach(c);
      ReachIsLower(c, x);
    }
  }

  /** What a kid reaches, its parent reaches. */
  lemma KidReachIsContained(o: JsObject, c: JsObject)
    requires c in o.kids && c.height < o.height
    ensures Reach(c) <= Reach(o)
  {
    forall x | x in Reach(c) ensures x in Reach(o) {
      assert x in (set c', x' | c' in o.kids && c'.height < o.height && x' in Reach(c') :: x');
    }
  }

  /** A property map of one object can be read in a loop: `Object.entries`. */
  predicate IsEntriesOf(es: seq<(string, Value)>, m: map<string, Value>)
  {
    && (forall j | 0 <= j < |es| :: es[j].0 in m && m[es[j].0] == es[j].1)
    && (forall k <- m :: exists j | 0 <= j < |es| :: es[j].0 == k)
    && (forall j, l | 0 <= j < l < |es| :: es[j].0 != es[l].0)
  }

  /** `es` lists, each once and with its value, exactly the properties of `m` not in `rest`. */
  ghost predicate ListedExcept(es: seq<(string, Value)>, m: map<string, Value>, rest: set<string>)
  {
    && rest <= m.Keys
    && (forall j | 0 <= j < |es| :: es[j].0 in m && m[es[j].0] == es[j].1 && es[j].0 !in rest)
    && (forall k <- m | k !in rest :: exists j | 0 <= j < |es| :: es[j].0 == k)
    && (forall j, l | 0 <= j < l < |es| :: es[j].0 != es[l].0)
    && |es| + |rest| == |m|
  }

  /** Listing one more property keeps the listing exact. */
  lemma ListedExceptStep(es: seq<(string, Value)>, m: map<string, Value>, rest: set<string>, k: string)
    requires ListedExcept(es, m, rest) && k in rest
    ensures ListedExcept(es + [(k, m[k])], m, rest - {k})
  {
    var es' := es + [(k, m[k])];
    forall k' <- m | k' !in rest - {k}
      ensures exists j | 0 <= j < |es'| :: es'[j].0 == k'
    {
      if k' == k {
        assert es'[|es|].0 == k';
      } else {
        var j :| 0 <= j < |es| && es[j].0 == k';
        assert es'[j].0 == k';
      }
    }
  }

  /**
   `Object.entries(m)`: every own property exactly once, paired with its value. JavaScript lists them
   in insertion order, which a `map` does not keep, so the order here is unspecified.
   */
  method Entries(m: map<string, Value>) returns (es: seq<(string, Value)>)
    ensures IsEntriesOf(es, m)
    ensures |es| == |m|
  {
    es := [];
    var rest := m.Keys;
    while rest != {}
      invariant ListedExcept(es, m, rest)
      decreases rest
    {
      var k :| k in rest;
      ListedExceptStep(es, m, rest, k);
      es := es + [(k, m[k])];
      rest := rest - {k};
    }
  }

  /** Joins parts with a separator: the inverse of `Split`. */
  function Join(parts: seq<string>, sep: char): string
    requires |parts| >= 1
  {
    if |parts| == 1 then parts[0] else parts[0] + [sep] + Join(parts[1..], sep)
  }

  /**
   `s.split(sep)` for a one-character separator: the pieces between separators, in order.
   There is always at least one piece, and `''.split(sep)` is `['']`.
   */
  function Split(s: string, sep: char): (parts: seq<string>)
    ensures |parts| >= 1
    ensures forall i | 0 <= i < |parts| :: sep !in parts[i]
    ensures Join(parts, sep) == s
  {
    if |s| == 0 then [""]
    else
      var tail := Split(s[1..], sep);
      if s[0] == sep then
        assert ([""] + tail)[1..] == tail;
        [""] + tail
      else
        var parts := [[s[0]] + tail[0]] + tail[1..];
        assert parts[1..] == tail[1..];
        assert s == [s[0]] + s[1..];
        parts
  }

  /** Last element of a non-empty sequence: `Array.prototype.pop`'s result. */
  function Last<T>(xs: seq<T>): T
    requires |xs| >= 1
  {
    xs[|xs| - 1]
  }

  /** The first piece of a split is the text before the first separator. */
  lemma {:induction false} FirstPieceIsHead(s: string, sep: char, j: nat)
    requires j <= |s| && sep !in s[..j] && (j == |s| || s[j] == sep)
    ensures Split(s, sep)[0] == s[..j]
  {
    if j > 0 {
      assert s[0] != sep by { assert s[0] == s[..j][0]; }
      assert s[1..][..j - 1] == s[1..j];
      FirstPieceIsHead(s[1..], sep, j - 1);
      assert s[..j] == [s[0]] + s[1..j];
    }
  }

  /** The last piece of a split is the text after the last separator. */
  lemma {:induction false} LastPieceIsTail(s: string, sep: char, i: nat)
    requires i <= |s| && (i == 0 || s[i - 1] == sep) && sep !in s[i..]
    ensures Last(Split(s, sep)) == s[i..]
  {
    if i == 0 {
      NoSeparatorIsOnePiece(s, sep);
    } else {
      assert s[1..][i - 1..] == s[i..];
      LastPieceIsTail(s[1..], sep, i - 1);
      if s[0] != sep {
        assert s[1..][i - 2] == sep;
        SeparatorMakesSeveralPieces(s[1..], sep, i - 2);
      }
    }
  }

  /** Text without the separator splits into itself alone. */
  lemma {:induction false} NoSeparatorIsOnePiece(s: string, sep: char)
    requires sep !in s
    ensures Split(s, sep) == [s]
  {
    if |s| > 0 {
      assert sep !in s[1..];
      NoSeparatorIsOnePiece(s[1..], sep);
      assert s == [s[0]] + s[1..];
    }
  }

  /** Text holding the separator splits into at least two pieces. */
  lemma {:induction false} SeparatorMakesSeveralPieces(s: string, sep: char, k: nat)
    requires k < |s| && s[k] == sep
    ensures |Split(s, sep)| > 1
  {
    if s[0] != sep {
      SeparatorMakesSeveralPieces(s[1..], sep, k - 1);
    }
  }

  /** Proof helper: the position of the last `c` in `s`, or -1 when there is none. */
  function LastIndexOf(s: string, c: char): (r: int)
    ensures -1 <= r < |s|
    ensures r >= 0 ==> s[r] == c
    ensures forall k | r < k < |s| :: s[k] != c
  {
    if |s| == 0 then -1
    else if s[|s| - 1] == c then |s| - 1
    else LastIndexOf(s[..|s| - 1], c)
  }

  /** Proof helper: the position of the first `c` in `s`, or -1 when there is none. */
  function IndexOf(s: string, c: char): (r: int)
    ensures -1 <= r < |s|
    ensures r >= 0 ==> s[r] == c
    ensures forall k | 0 <= k < (if r < 0 then |s| else r) :: s[k] != c
  {
    if |s| == 0 then -1
    else if s[0] == c then 0
    else
      var r := IndexOf(s[1..], c);
      if r < 0 then -1 else r + 1
  }
}
