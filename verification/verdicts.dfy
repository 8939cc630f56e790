/** What a guard decides for a request, in place of the framework's
    `redirect_to` and `render` side effects, and the first-match rule by which
    an `if … elsif …` chain of guard branches yields at most one of them. */
module Verdicts {

  /** The route helpers a guard redirects to. */
  datatype Path = Login | Root | Profile

  /** The templates a guard renders; both are not-found pages. */
  datatype Template = NotFound | RepositoryNotFound {
    function Name(): string
    {
      match this
      case NotFound => "404"
      case RepositoryNotFound => "repositories/404"
    }
  }

  datatype Verdict = Proceed | Redirect(path: Path) | Render(template: Template)

  /** A verdict that stops the request. */
  type Halt = v: Verdict | !v.Proceed? witness Render(NotFound)

  /** One branch of a guard: when `fires` holds, the request stops with `halt`. */
  datatype Branch = Branch(fires: bool, halt: Halt)

  /** The outcome of trying `branches` in order: the halt of the first branch
      that fires, or Proceed when none does. Later branches are never consulted. */
  function FirstFiring(branches: seq<Branch>): (v: Verdict)
    ensures v.Proceed? <==> forall i :: 0 <= i < |branches| ==> !branches[i].fires
    ensures !v.Proceed? ==>
      exists i :: 0 <= i < |branches| && branches[i].fires && v == branches[i].halt
                  && forall j :: 0 <= j < i ==> !branches[j].fires
  {
    if |branches| == 0 then Proceed
    else if branches[0].fires then branches[0].halt
    else
      var v := FirstFiring(branches[1..]);
      assert forall i :: 1 <= i < |branches| ==> branches[i] == branches[1..][i - 1];
      v
  }

  /** Branches placed after one that fires do not matter; when none of the
      leading branches fires, the outcome is decided by the remaining ones. */
  lemma {:induction false} FirstFiringAppend(front: seq<Branch>, back: seq<Branch>)
    ensures (exists i :: 0 <= i < |front| && front[i].fires) ==>
              FirstFiring(front + back) == FirstFiring(front)
    ensures (forall i :: 0 <= i < |front| ==> !front[i].fires) ==>
              FirstFiring(front + back) == FirstFiring(back)
  {
    if |front| == 0 {
      assert front + back == back;
    } else {
      assert (front + back)[0] == front[0];
      assert (front + back)[1..] == front[1..] + back;
      FirstFiringAppend(front[1..], back);
      if !front[0].fires {
        assert forall i :: 1 <= i < |front| ==> front[i] == front[1..][i - 1];
      }
    }
  }
}
