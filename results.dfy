/**
 * Option and Result values for the pipeline, and the one error taxonomy every
 * stage reports through. Each error constructor corresponds to a Python
 * exception the modelled code can raise.
 */
module Results {

  datatype Option<+T> = None | Some(value: T)

  datatype Error =
    | FileNotFound(path: string)          // FileNotFoundError raised by the code itself
    | IsADirectory(path: string)          // IsADirectoryError from a write to a directory
    | UnicodeDecode(path: string)         // UnicodeDecodeError from read_text
    | ExtractionFailed(path: string)      // PyMuPDF could not open or read the document
    | HttpStatus(code: int)               // requests.HTTPError from raise_for_status
    | XmlParse                            // ElementTree.ParseError
    | MissingElement(tag: string)         // AttributeError: find() returned None
    | MissingText(tag: string)            // AttributeError: .text is None
    | MissingAttribute(tag: string, name: string)  // KeyError on .attrib[name]
    | Validation(fields: seq<string>)     // pydantic ValidationError, failing fields in order

  /** A value, or the exception that aborted the computation. */
  datatype Result<+T> = Ok(value: T) | Err(error: Error) {

    predicate IsFailure() {
      Err?
    }

    function PropagateFailure<U>(): Result<U>
      requires Err?
    {
      Err(error)
    }

    function Extract(): T
      requires Ok?
    {
      value
    }
  }

  /**
   * `[f(x) for x in xs]` when `f` may raise: every result in order, or the
   * error of the first element that fails.
   */
  function Collect<A, B>(xs: seq<A>, f: A -> Result<B>): (r: Result<seq<B>>)
    ensures r.Ok? <==> forall i :: 0 <= i < |xs| ==> f(xs[i]).Ok?
    ensures r.Ok? ==> |r.value| == |xs| && forall i :: 0 <= i < |xs| ==> f(xs[i]) == Ok(r.value[i])
    ensures r.Err? ==> exists k :: 0 <= k < |xs| && f(xs[k]) == Err(r.error)
                                   && forall j :: 0 <= j < k ==> f(xs[j]).Ok?
  {
    if xs == [] then Ok([])
    else
      var first := f(xs[0]);
      assert forall i :: 1 <= i < |xs| ==> xs[i] == xs[1..][i - 1];
      if first.Err? then Err(first.error)
      else
        var rest := Collect(xs[1..], f);
        if rest.Err? then
          var k :| 0 <= k < |xs[1..]| && f(xs[1..][k]) == Err(rest.error)
                   && forall j :: 0 <= j < k ==> f(xs[1..][j]).Ok?;
          assert f(xs[k + 1]) == Err(rest.error);
          Err(rest.error)
        else
          Ok([first.value] + rest.value)
  }

  /** One more element: the results so far, then the new one, unless something fails. */
  lemma {:induction false} CollectAppend<A, B>(xs: seq<A>, e: A, f: A -> Result<B>)
    ensures Collect(xs + [e], f) ==
      match Collect(xs, f)
      case Err(err) => Err(err)
      case Ok(ps) => match f(e) case Err(err) => Err(err) case Ok(p) => Ok(ps + [p])
  {
    if xs == [] {
      assert xs + [e] == [e];
      var none: seq<A> := [];
      assert [e][1..] == none;
      assert Collect(none, f) == Ok([]);
      if f(e).Ok? {
        var ps: seq<B> := [];
        assert [f(e).value] + ps == ps + [f(e).value];
      }
    } else {
      assert (xs + [e])[1..] == xs[1..] + [e];
      CollectAppend(xs[1..], e, f);
      var rest := Collect(xs[1..], f);
      if rest.Ok? && f(e).Ok? && f(xs[0]).Ok? {
        assert [f(xs[0]).value] + (rest.value + [f(e).value])
            == ([f(xs[0]).value] + rest.value) + [f(e).value];
      }
    }
  }

  /** When every element before `i` succeeds and element `i` fails, the whole list fails with its error. */
  lemma CollectErrAt<A, B>(xs: seq<A>, i: nat, f: A -> Result<B>)
    requires i < |xs| && Collect(xs[..i], f).Ok? && f(xs[i]).Err?
    ensures Collect(xs, f) == Err(f(xs[i]).error)
  {
    assert forall j :: 0 <= j < i ==> f(xs[j]).Ok? by {
      forall j | 0 <= j < i ensures f(xs[j]).Ok? { assert xs[..i][j] == xs[j]; }
    }
    var r := Collect(xs, f);
    var k :| 0 <= k < |xs| && f(xs[k]) == Err(r.error) && forall j :: 0 <= j < k ==> f(xs[j]).Ok?;
    assert k == i;
  }
}
