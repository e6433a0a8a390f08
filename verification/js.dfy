/** The few JavaScript values and operators the scraper and the viewer rely on:
    optional values (an absent node, a missing attribute, an index past the end),
    the two defaulting operators `??` and `||`, and the numbers that `parseInt`
    and `Number` produce here (integers and NaN). */
module Js {

  /** A value that may be `undefined` or `null`. */
  datatype Option<+T> = None | Some(value: T)

  /** `a[i]` on an array or a node list: `undefined` past the end. */
  function At<T>(a: seq<T>, i: nat): (o: Option<T>)
    ensures o.Some? <==> i < |a|
    ensures o.Some? ==> o.value == a[i]
  {
    if i < |a| then Some(a[i]) else None
  }

  /** `o ?? d`: only an absent value falls back to the default; an empty string is kept. */
  function Coalesce(o: Option<string>, d: string): (r: string)
    ensures o.Some? ==> r == o.value
    ensures r == d || o == Some(r)
    ensures r == "" <==> o == Some("") || (o.None? && d == "")
  {
    match o
    case Some(s) => s
    case None => d
  }

  /** `o || d` for a string or `undefined`: absent and empty (both falsy) fall back to the default. */
  function OrElse(o: Option<string>, d: string): (r: string)
    ensures o.Some? && o.value != "" ==> r == o.value
    ensures r == d || (o == Some(r) && r != "")
    ensures r == "" <==> d == "" && (o.None? || o == Some(""))
  {
    match o
    case Some(s) => if s == "" then d else s
    case None => d
  }

  /** The two operators agree except on a present empty string, which `??` keeps and `||` replaces. */
  lemma CoalesceOrElseDiffer(o: Option<string>, d: string)
    ensures Coalesce(o, d) != OrElse(o, d) <==> o == Some("") && d != ""
  {
  }

  /** `||` with a non-empty default never yields the empty string; `??` can. */
  lemma OrElseNeverEmpty(o: Option<string>, d: string)
    requires d != ""
    ensures OrElse(o, d) != ""
    ensures Coalesce(o, d) == "" <==> o == Some("")
  {
  }

  /** The JavaScript numbers this program can produce: integers and NaN. */
  datatype Number = Int(i: int) | NaN

  /** JavaScript truthiness of a number: everything but 0 and NaN. */
  predicate Truthy(x: Number)
  {
    x.Int? && x.i != 0
  }

  /** `a === b` on numbers: NaN equals nothing, not even itself. */
  predicate StrictEquals(a: Number, b: Number)
  {
    a.Int? && b.Int? && a.i == b.i
  }

  /** Strict equality is equality of the datatype except at NaN; this is why a
      NaN year can never be selected by `===`. */
  lemma StrictEqualsIsEqualityButNaN(a: Number, b: Number)
    ensures StrictEquals(a, b) <==> a == b && a != NaN
  {
  }
}
