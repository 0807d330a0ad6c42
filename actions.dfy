/** The owner's controls on a prompt's detail page (`PromptActions`): an Edit
    button that opens the edit page and a Delete button that removes the
    prompt after a confirmation, both shown only to the prompt's creator. */
module Actions {
  import opened Rows
  import opened Routing

  /** `user && user.id === promptCreatorId`: the signed-in user created the
      prompt. */
  predicate IsCreator(user: Option<User>, creatorId: Id)
  {
    user.Some? && user.value.id == creatorId
  }

  /** The ownership flag after the identity checks `checks`, in order, starting
      from `false`: a check only ever sets it, never clears it. */
  function OwnerAfter(checks: seq<Option<User>>, creatorId: Id): bool
  {
    if checks == [] then false
    else OwnerAfter(checks[..|checks| - 1], creatorId) || IsCreator(checks[|checks| - 1], creatorId)
  }

  /** The flag is set exactly when one of the checks saw the creator. */
  lemma {:induction false} OwnerAfterIff(checks: seq<Option<User>>, creatorId: Id)
    ensures OwnerAfter(checks, creatorId) <==> exists i :: 0 <= i < |checks| && IsCreator(checks[i], creatorId)
  {
    if checks != [] {
      var init := checks[..|checks| - 1];
      OwnerAfterIff(init, creatorId);
      if OwnerAfter(init, creatorId) {
        var i :| 0 <= i < |init| && IsCreator(init[i], creatorId);
        assert checks[i] == init[i];
      }
      if exists i :: 0 <= i < |checks| && IsCreator(checks[i], creatorId) {
        var i :| 0 <= i < |checks| && IsCreator(checks[i], creatorId);
        if i < |init| {
          assert init[i] == checks[i];
        }
      }
    }
  }

  /** What the component renders: nothing, or the two buttons, with the Delete
      button disabled (and labelled 'Deleting...') while a delete is pending. */
  datatype View = Hidden | Buttons(deleteDisabled: bool)

  class PromptActions {
    const promptId: Id
    const promptCreatorId: Id
    const db: Db
    const router: Router
    var isOwner: bool
    var deleting: bool
    /** The identities seen by the ownership checks so far. */
    ghost var checks: seq<Option<User>>

    /** The ownership flag is the one the checks so far determine. */
    ghost predicate Valid()
      reads this
    {
      isOwner == OwnerAfter(checks, promptCreatorId)
    }

    /** Mount: not (yet) the owner, no delete pending. */
    constructor (promptId: Id, promptCreatorId: Id, db: Db, router: Router)
      ensures Valid()
      ensures this.promptId == promptId && this.promptCreatorId == promptCreatorId
      ensures this.db == db && this.router == router
      ensures !isOwner && !deleting && checks == []
    {
      this.promptId, this.promptCreatorId := promptId, promptCreatorId;
      this.db, this.router := db, router;
      isOwner, deleting := false, false;
      checks := [];
    }

    /** The mount effect `checkUser`: become the owner when the signed-in user
        created the prompt; otherwise leave the flag as it is. */
    method CheckUser(user: Option<User>)
      requires Valid()
      modifies this`isOwner, this`checks
      ensures Valid()
      ensures checks == old(checks) + [user]
      ensures isOwner == (old(isOwner) || IsCreator(user, promptCreatorId))
    {
      checks := checks + [user];
      assert checks[..|checks| - 1] == old(checks);
      if IsCreator(user, promptCreatorId) {
        isOwner := true;
      }
    }

    /** `if (!isOwner) return null`, else the buttons. */
    function Render(): (v: View)
      reads this
      ensures v.Hidden? <==> !isOwner
      ensures v.Buttons? ==> v.deleteDisabled == deleting
    {
      if !isOwner then Hidden else Buttons(deleting)
    }

    /** `handleDelete`, reachable only from the rendered, enabled Delete button.
        Declining the confirmation changes nothing. Otherwise the prompt's row
        is deleted by id; on success the router refreshes and then goes to the
        feed, and the button stays disabled; on failure the table is unchanged,
        the button is enabled again and there is no navigation. */
    method HandleDelete(confirmed: bool, reply: Reply)
      requires Valid() && db.Valid() && isOwner && !deleting
      modifies this`deleting, db`prompts, router
      ensures Valid() && db.Valid()
      ensures !confirmed ==>
        && db.prompts == old(db.prompts) && !deleting
        && router.log == old(router.log)
      ensures confirmed && reply.Ok? ==>
        && db.prompts == DeleteById(old(db.prompts), promptId) && deleting
        && router.log == old(router.log) + [Step.Refresh, Step.Push(FeedPath)]
      ensures confirmed && reply.Failed? ==>
        && db.prompts == old(db.prompts) && !deleting
        && router.log == old(router.log)
    {
      if !confirmed {
        return;
      }
      deleting := true;
      if reply.Failed? {
        deleting := false;
      } else {
        db.prompts := DeleteById(db.prompts, promptId);
        router.Refresh();
        router.Push(FeedPath);
      }
    }

    /** `handleEdit`: go to the prompt's edit page. */
    method HandleEdit()
      modifies router
      ensures router.log == old(router.log) + [Step.Push(EditPath(promptId))]
    {
      router.Push(EditPath(promptId));
    }
  }
}
