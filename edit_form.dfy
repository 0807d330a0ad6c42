/** The edit page's form (`EditPromptForm`): the prompt's title, description
    and prompt text, editable, saved back to the prompt's row. */
module EditForm {
  import opened Rows
  import opened Routing

  /** `prompt.description || ''`: a missing description edits as the empty
      string. */
  function DescriptionOrEmpty(d: Option<string>): (s: string)
    ensures d.Some? ==> s == d.value
    ensures d.None? ==> s == ""
  {
    if d.Some? then d.value else ""
  }

  class EditPromptForm {
    const prompt: Prompt
    const db: Db
    const router: Router
    var title: string
    var description: string
    var promptText: string
    var loading: bool
    var error: Option<string>

    /** The fields start as the prompt's values. */
    constructor (prompt: Prompt, db: Db, router: Router)
      ensures this.prompt == prompt && this.db == db && this.router == router
      ensures title == prompt.title && promptText == prompt.promptText
      ensures description == DescriptionOrEmpty(prompt.description)
      ensures !loading && error == None
    {
      this.prompt, this.db, this.router := prompt, db, router;
      title, promptText := prompt.title, prompt.promptText;
      description := DescriptionOrEmpty(prompt.description);
      loading, error := false, None;
    }

    /** The title input's `onChange`. */
    method SetTitle(text: string)
      modifies this`title
      ensures title == text
    {
      title := text;
    }

    /** The description textarea's `onChange`. */
    method SetDescription(text: string)
      modifies this`description
      ensures description == text
    {
      description := text;
    }

    /** The prompt textarea's `onChange`. */
    method SetPromptText(text: string)
      modifies this`promptText
      ensures promptText == text
    {
      promptText := text;
    }

    /** `handleSubmit`, from the enabled Save button of a form whose required
        title and prompt fields are filled in. It updates the three text
        columns of the prompt's row, whoever is signed in. On success the
        router refreshes and opens the prompt's page and no error is shown; on
        failure the table is unchanged, the error is shown and there is no
        navigation. `loading` is false afterwards. */
    method HandleSubmit(reply: Reply)
      requires db.Valid() && !loading && title != "" && promptText != ""
      modifies this`loading, this`error, db`prompts, router
      ensures db.Valid() && !loading
      ensures reply.Ok? ==>
        && db.prompts == UpdateText(old(db.prompts), prompt.id, title, description, promptText)
        && error == None
        && router.log == old(router.log) + [Step.Refresh, Step.Push(DetailPath(prompt.id))]
      ensures reply.Failed? ==>
        && db.prompts == old(db.prompts)
        && error == Some(ErrorText(reply.message))
        && router.log == old(router.log)
    {
      loading := true;
      error := None;
      if reply.Failed? {
        error := Some(ErrorText(reply.message));
      } else {
        db.prompts := UpdateText(db.prompts, prompt.id, title, description, promptText);
        router.Refresh();
        router.Push(DetailPath(prompt.id));
      }
      loading := false;
    }

    /** The Cancel button: `router.back()`, nothing saved. */
    method Cancel()
      modifies router
      ensures router.log == old(router.log) + [Step.Back]
    {
      router.Back();
    }
  }

  /** Saving the form untouched gives back the table it was loaded from,
      except that a missing description is now stored as the empty string. */
  lemma {:induction false} SaveUntouched(m: map<Id, Prompt>, p: Prompt)
    requires p.id in m && m[p.id] == p
    ensures var r := UpdateText(m, p.id, p.title, DescriptionOrEmpty(p.description), p.promptText);
      && (r == m <==> p.description.Some?)
      && r[p.id].description == Some(DescriptionOrEmpty(p.description))
  {
    var r := UpdateText(m, p.id, p.title, DescriptionOrEmpty(p.description), p.promptText);
    if p.description.Some? {
      assert r[p.id] == p;
      assert forall j :: j in r ==> r[j] == m[j];
    } else {
      assert r[p.id].description != m[p.id].description;
    }
  }

  /** Saving twice with the same fields is saving once. */
  lemma {:induction false} SaveTwice(m: map<Id, Prompt>, id: Id, title: string, description: string, promptText: string)
    ensures var once := UpdateText(m, id, title, description, promptText);
      UpdateText(once, id, title, description, promptText) == once
  {
    var once := UpdateText(m, id, title, description, promptText);
    var twice := UpdateText(once, id, title, description, promptText);
    if id in m {
      assert twice[id] == once[id];
    }
    assert forall j :: j in twice ==> twice[j] == once[j];
  }
}
