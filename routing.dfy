/** Client-side navigation as the components use it: `router.push(path)` and
    `router.refresh()`, and the paths they build. */
module Routing {
  import opened Rows

  /** One navigation request: `router.push(path)`, `router.refresh()` (re-render
      the server components; no navigation) or `router.back()` (one step back
      in the browser history). */
  datatype Step = Push(path: string) | Refresh | Back

  /** The app router: every request made of it so far, in order. */
  class Router {
    var log: seq<Step>

    constructor ()
      ensures log == []
    {
      log := [];
    }

    /** `router.push(path)`. */
    method Push(path: string)
      modifies this
      ensures log == old(log) + [Step.Push(path)]
    {
      log := log + [Step.Push(path)];
    }

    /** `router.refresh()`. */
    method Refresh()
      modifies this
      ensures log == old(log) + [Step.Refresh]
    {
      log := log + [Step.Refresh];
    }

    /** `router.back()`. */
    method Back()
      modifies this
      ensures log == old(log) + [Step.Back]
    {
      log := log + [Step.Back];
    }
  }

  /** The detail page of a prompt, `/prompt/{id}`. */
  function DetailPath(id: Id): string
  {
    "/prompt/" + id
  }

  /** The edit page of a prompt, `/prompt/{id}/edit`. */
  function EditPath(id: Id): string
  {
    DetailPath(id) + "/edit"
  }

  /** The feed. */
  const FeedPath: string := "/"

  /** Distinct prompts have distinct detail pages and distinct edit pages. */
  lemma {:induction false} PathsNameThePrompt(a: Id, b: Id)
    ensures DetailPath(a) == DetailPath(b) ==> a == b
    ensures EditPath(a) == EditPath(b) ==> a == b
  {
    if DetailPath(a) == DetailPath(b) {
      assert a == DetailPath(a)[8..] && b == DetailPath(b)[8..];
    }
    if EditPath(a) == EditPath(b) {
      assert |a| == |b|;
      assert DetailPath(a) == EditPath(a)[..|EditPath(a)| - 5];
      assert DetailPath(b) == EditPath(b)[..|EditPath(b)| - 5];
      assert a == DetailPath(a)[8..] && b == DetailPath(b)[8..];
    }
  }
}
