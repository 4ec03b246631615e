/** Result types standing in for the exceptions the Python code raises. */
module Wrappers {

  /** The exceptions the modelled code can raise, one constructor per kind. */
  datatype Error =
    | IndexError                          // a list index out of range
    | KeyError                            // a dictionary lookup of an absent key
    | MissingIndividual(name: string)     // a configured individual absent from the VCF header
    | InvalidLine(line: string, found: nat) // a population line without exactly two fields
    | UnknownIndividual(name: string)     // an identifier absent from parsed VCF data
    | UnboundLocal                        // a local variable read before any assignment
    | AttributeError                      // an attribute read before it was ever set
    | TypeError                           // iterating over None

  datatype Result<+T> = Ok(value: T) | Err(error: Error)

  datatype Outcome = Pass | Fail(error: Error)

  datatype Option<+T> = None | Some(value: T)

  /** `[f(x) for x in s]` when `f` may raise: the first exception, in the
      order of `s`, propagates; otherwise every result, in order. */
  function Traverse<A, B>(s: seq<A>, f: A -> Result<B>): (r: Result<seq<B>>)
    ensures r.Ok? <==> forall k :: 0 <= k < |s| ==> f(s[k]).Ok?
    ensures r.Ok? ==> |r.value| == |s| && forall k :: 0 <= k < |s| ==> f(s[k]) == Ok(r.value[k])
  {
    if |s| == 0 then Ok([])
    else
      var init := Traverse(s[..|s| - 1], f);
      if init.Err? then Err(init.error)
      else match f(s[|s| - 1])
        case Ok(v) => Ok(init.value + [v])
        case Err(e) => Err(e)
  }

  /** A failing traversal reports the first element that raised. */
  lemma {:induction false} TraverseFirstError<A, B>(s: seq<A>, f: A -> Result<B>)
    requires Traverse(s, f).Err?
    ensures exists k :: 0 <= k < |s| && f(s[k]) == Err(Traverse(s, f).error) &&
                        forall j :: 0 <= j < k ==> f(s[j]).Ok?
  {
    var init := s[..|s| - 1];
    assert forall j :: 0 <= j < |init| ==> init[j] == s[j];
    if Traverse(init, f).Err? {
      TraverseFirstError(init, f);
      var k :| 0 <= k < |init| && f(init[k]) == Err(Traverse(init, f).error) &&
               forall j :: 0 <= j < k ==> f(init[j]).Ok?;
      assert f(s[k]) == Err(Traverse(s, f).error);
    } else {
      assert forall j :: 0 <= j < |init| ==> f(s[j]).Ok?;
      assert f(s[|s| - 1]) == Err(Traverse(s, f).error);
    }
  }

  /** One more element: its result is appended, unless something raises. */
  lemma TraverseSnoc<A, B>(s: seq<A>, f: A -> Result<B>, i: nat)
    requires i < |s|
    ensures Traverse(s[..i + 1], f) ==
            if Traverse(s[..i], f).Err? then Traverse(s[..i], f)
            else if f(s[i]).Err? then Err(f(s[i]).error)
            else Ok(Traverse(s[..i], f).value + [f(s[i]).value])
  {
    assert s[..i + 1][..i] == s[..i];
  }

  /** Once a prefix raised, the whole traversal raises the same exception. */
  lemma {:induction false} TraverseStops<A, B>(s: seq<A>, f: A -> Result<B>, i: nat)
    requires i <= |s| && Traverse(s[..i], f).Err?
    ensures Traverse(s, f) == Traverse(s[..i], f)
    decreases |s| - i
  {
    if i < |s| {
      TraverseSnoc(s, f, i);
      TraverseStops(s, f, i + 1);
    } else {
      assert s[..i] == s;
    }
  }

  /** A result paired with its key, as in `result[key] = value`. */
  function Labelled<K, V>(key: K, r: Result<V>): (l: Result<(K, V)>)
    ensures l.Ok? <==> r.Ok?
    ensures l.Ok? ==> l.value == (key, r.value)
    ensures l.Err? ==> l.error == r.error
  {
    match r
    case Ok(v) => Ok((key, v))
    case Err(e) => Err(e)
  }
}
