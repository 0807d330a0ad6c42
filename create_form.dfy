/** The submit page's form (`PromptForm`): a picked image, a title, a
    description and a prompt text, published by uploading the image to the
    `prompt-images` bucket and inserting a `prompts` row that links to it. */
module CreateForm {
  import opened Rows
  import opened Routing

  /** `name.split('.').pop()`: the last '.'-separated segment of a file name,
      the whole name when it has no dot, empty when it ends with a dot. */
  function Extension(name: string): string
  {
    if name == [] then []
    else if name[|name| - 1] == '.' then []
    else Extension(name[..|name| - 1]) + [name[|name| - 1]]
  }

  /** The extension is the dot-free tail of the name: a suffix without '.',
      preceded by a '.' unless it is the whole name, and the whole name when
      the name has no dot. */
  lemma {:induction false} ExtensionShape(name: string)
    ensures var ext := Extension(name);
      && |ext| <= |name| && ext == name[|name| - |ext|..]
      && '.' !in ext
      && (|ext| < |name| ==> name[|name| - |ext| - 1] == '.')
      && ('.' !in name ==> ext == name)
    decreases |name|
  {
    if name != [] && name[|name| - 1] != '.' {
      var init := name[..|name| - 1];
      ExtensionShape(init);
      assert name == init + [name[|name| - 1]];
    }
  }

  /** The extension of `prefix + "." + ext`, for an `ext` without a dot, is
      `ext`, whatever the prefix. */
  lemma {:induction false} ExtensionAfterDot(prefix: string, ext: string)
    requires '.' !in ext
    ensures Extension(prefix + "." + ext) == ext
  {
    var name := prefix + "." + ext;
    var e := Extension(name);
    ExtensionShape(name);
    assert name[|name| - |ext| - 1] == '.';
    assert e == name[|name| - |e|..] == ext;
  }

  /** `${user.id}-${token}.${fileExt}`: the object name of an upload, where
      `token` is the random string the page draws. */
  function FileName(userId: Id, token: string, name: string): string
  {
    userId + "-" + token + "." + Extension(name)
  }

  /** The uploaded object keeps the extension of the picked file. */
  lemma {:induction false} FileNameKeepsExtension(userId: Id, token: string, name: string)
    ensures Extension(FileName(userId, token, name)) == Extension(name)
  {
    ExtensionShape(name);
    ExtensionAfterDot(userId + "-" + token, Extension(name));
  }

  /** The object name starts with the uploader's id and a dash. */
  lemma {:induction false} FileNameNamesOwner(userId: Id, token: string, name: string)
    ensures var path := FileName(userId, token, name);
      |path| > |userId| && path[..|userId|] == userId && path[|userId|] == '-'
  {
    var rest := token + "." + Extension(name);
    assert FileName(userId, token, name) == userId + ("-" + rest);
  }

  /** How a submit ends: the first check that fails, in the order the page
      runs them, or a published prompt. */
  datatype Outcome =
    | NoImage
    | NotSignedIn
    | UploadFailed(message: string)
    | InsertFailed(message: string)
    | Published(path: string, row: Prompt)

  /** The error the page shows for each outcome (none after publishing). */
  function ErrorOf(o: Outcome): (e: Option<string>)
    ensures e.None? <==> o.Published?
    ensures o.UploadFailed? || o.InsertFailed? ==> e == Some(ErrorText(o.message))
  {
    match o
    case NoImage => Some("Please upload an image for your prompt.")
    case NotSignedIn => Some("You must be logged in.")
    case UploadFailed(m) => Some(ErrorText(m))
    case InsertFailed(m) => Some(ErrorText(m))
    case Published(_, _) => None
  }

  /** The `prompts` row a submit inserts: the form's three text fields, the
      signed-in user as owner and the uploaded image's public URL, under the
      id and creation time the store assigns. */
  function NewRow(id: Id, userId: Id, title: string, description: string, promptText: string,
                  imageUrl: string, createdAt: int): Prompt
  {
    Prompt(id, userId, title, Some(description), promptText, Some(imageUrl), createdAt)
  }

  /** The form's text fields at submit time. */
  datatype Fields = Fields(title: string, description: string, promptText: string)

  /** What the outside world answers during one submit: the signed-in user,
      the random token of the object name, the storage and store replies, and
      the id and creation time the store assigns to the new row. */
  datatype Answers = Answers(user: Option<User>, token: string, uploadReply: Reply,
                             newId: Id, now: int, insertReply: Reply)

  /** A submit's outcome and the bucket and table it leaves behind. */
  datatype Submission = Submission(outcome: Outcome, objects: map<string, File>, prompts: map<Id, Prompt>)

  /** The insert step: the row is added when the store accepts it, and the
      table is unchanged otherwise; the bucket is not touched. */
  function InsertStep(path: string, row: Prompt, reply: Reply,
                      objects: map<string, File>, prompts: map<Id, Prompt>): (s: Submission)
    ensures s.objects == objects
    ensures s.outcome.InsertFailed? || s.outcome == Published(path, row)
    ensures s.outcome.InsertFailed? ==>
      s.prompts == prompts && InsertAnswer(prompts, row, reply) == Failed(s.outcome.message)
    ensures s.outcome.Published? <==> reply.Ok? && row.id !in prompts
    ensures s.outcome.Published? ==>
      && s.prompts.Keys == prompts.Keys + {row.id} && |s.prompts| == |prompts| + 1
      && s.prompts[row.id] == row && (forall j :: j in prompts ==> s.prompts[j] == prompts[j])
  {
    var insert := InsertAnswer(prompts, row, reply);
    if insert.Failed? then Submission(InsertFailed(insert.message), objects, prompts)
    else Submission(Published(path, row), objects, InsertRow(prompts, row).value)
  }

  /** The upload step and what follows it: the picked file is stored under
      its object name when the service accepts it, and only then is the row
      that links to it inserted. */
  function UploadStep(f: Fields, user: User, image: File, env: Answers, projectUrl: string,
                      objects: map<string, File>, prompts: map<Id, Prompt>): (s: Submission)
    ensures s.outcome.UploadFailed? || s.outcome.InsertFailed? || s.outcome.Published?
    ensures var path := FileName(user.id, env.token, image.name);
      && (s.outcome.UploadFailed? <==> env.uploadReply.Failed? || path in objects)
      && (s.outcome.UploadFailed? ==> s.objects == objects && s.prompts == prompts)
      && (!s.outcome.UploadFailed? ==> s.objects == objects[path := image])
    ensures !s.outcome.Published? ==> s.prompts == prompts
    ensures s.outcome.Published? ==>
      && var row := s.outcome.row;
      && s.outcome.path == FileName(user.id, env.token, image.name)
      && row == NewRow(env.newId, user.id, f.title, f.description, f.promptText,
                       PublicUrl(projectUrl, s.outcome.path), env.now)
      && s.prompts.Keys == prompts.Keys + {row.id} && |s.prompts| == |prompts| + 1
      && s.prompts[row.id] == row && (forall j :: j in prompts ==> s.prompts[j] == prompts[j])
  {
    var path := FileName(user.id, env.token, image.name);
    var upload := UploadAnswer(objects, path, env.uploadReply);
    if upload.Failed? then Submission(UploadFailed(upload.message), objects, prompts)
    else
      var row := NewRow(env.newId, user.id, f.title, f.description, f.promptText,
                        PublicUrl(projectUrl, path), env.now);
      InsertStep(path, row, env.insertReply, objects[path := image], prompts)
  }

  /** The submit pipeline: image check, user check, then the upload step. Nothing
      reaches the store before an image and a user are there. */
  function Submit(f: Fields, image: Option<File>, env: Answers, projectUrl: string,
                  objects: map<string, File>, prompts: map<Id, Prompt>): (s: Submission)
    ensures s.outcome.NoImage? <==> image.None?
    ensures s.outcome.NotSignedIn? <==> image.Some? && env.user.None?
    ensures s.outcome.NoImage? || s.outcome.NotSignedIn? ==> s.objects == objects && s.prompts == prompts
    ensures image.Some? && env.user.Some? ==>
      s == UploadStep(f, env.user.value, image.value, env, projectUrl, objects, prompts)
  {
    if image.None? then Submission(NoImage, objects, prompts)
    else if env.user.None? then Submission(NotSignedIn, objects, prompts)
    else UploadStep(f, env.user.value, image.value, env, projectUrl, objects, prompts)
  }

  /** A submit publishes exactly when an image is picked, a user is signed
      in, the object name is free and the upload accepted, and the assigned id
      is free and the insert accepted; then the new row holds the form's
      fields, belongs to the user, links the public URL of the stored object,
      and is the only change to the table. */
  lemma {:induction false} SubmitPublishes(f: Fields, image: Option<File>, env: Answers, projectUrl: string,
                                           objects: map<string, File>, prompts: map<Id, Prompt>)
    ensures var s := Submit(f, image, env, projectUrl, objects, prompts);
      && (s.outcome.Published? <==>
            && image.Some? && env.user.Some?
            && env.uploadReply.Ok? && FileName(env.user.value.id, env.token, image.value.name) !in objects
            && env.insertReply.Ok? && env.newId !in prompts)
      && (s.outcome.Published? ==>
            && s.outcome.row.userId == env.user.value.id
            && s.outcome.row.title == f.title && s.outcome.row.description == Some(f.description)
            && s.outcome.row.promptText == f.promptText
            && s.outcome.row.imageUrl
               == Some(PublicUrl(projectUrl, FileName(env.user.value.id, env.token, image.value.name)))
            && s.prompts == prompts[env.newId := s.outcome.row])
  {
    var s := Submit(f, image, env, projectUrl, objects, prompts);
    if image.Some? && env.user.Some? {
      var path := FileName(env.user.value.id, env.token, image.value.name);
      var row := NewRow(env.newId, env.user.value.id, f.title, f.description, f.promptText,
                        PublicUrl(projectUrl, path), env.now);
      if env.uploadReply.Ok? && path !in objects {
        assert s == InsertStep(path, row, env.insertReply, objects[path := image.value], prompts);
      }
      if s.outcome.Published? {
        assert s.prompts == prompts[env.newId := s.outcome.row];
      }
    }
  }

  /** A published prompt's image URL names exactly the object the submit
      stored, which holds the picked file and keeps its extension. */
  lemma {:induction false} PublishedLinksUpload(f: Fields, image: File, env: Answers, projectUrl: string,
                                                objects: map<string, File>, prompts: map<Id, Prompt>, path: string)
    requires Submit(f, Some(image), env, projectUrl, objects, prompts).outcome.Published?
    requires Some(PublicUrl(projectUrl, path)) == Submit(f, Some(image), env, projectUrl, objects, prompts).outcome.row.imageUrl
    ensures path == Submit(f, Some(image), env, projectUrl, objects, prompts).outcome.path
    ensures Submit(f, Some(image), env, projectUrl, objects, prompts).objects[path] == image
    ensures Extension(path) == Extension(image.name)
  {
    var s := Submit(f, Some(image), env, projectUrl, objects, prompts);
    PublicUrlNamesPath(projectUrl, path, s.outcome.path);
    FileNameKeepsExtension(env.user.value.id, env.token, image.name);
    assert s.objects == objects[path := image];
  }

  class PromptForm {
    const db: Db
    const router: Router
    var title: string
    var description: string
    var promptText: string
    var imageFile: Option<File>
    var previewUrl: Option<string>
    var loading: bool
    var error: Option<string>

    /** An empty form. */
    constructor (db: Db, router: Router)
      ensures this.db == db && this.router == router
      ensures title == "" && description == "" && promptText == ""
      ensures imageFile == None && previewUrl == None && !loading && error == None
    {
      this.db, this.router := db, router;
      title, description, promptText := "", "", "";
      imageFile, previewUrl, loading, error := None, None, false, None;
    }

    /** The title input's `onChange`. */
    method SetTitle(text: string)
      modifies this`title
      ensures title == text
    {
      title := text;
    }

    /** The description textarea's `onChange`. */
    method SetDescription(text: string)
      modifies this`description
      ensures description == text
    {
      description := text;
    }

    /** The prompt textarea's `onChange`. */
    method SetPromptText(text: string)
      modifies this`promptText
      ensures promptText == text
    {
      promptText := text;
    }

    /** `handleImageChange`: a picked file becomes the image and its object
        URL the preview; a cancelled pick keeps both. */
    method HandleImageChange(file: Option<File>, objectUrl: string)
      modifies this`imageFile, this`previewUrl
      ensures file.Some? ==> imageFile == file && previewUrl == Some(objectUrl)
      ensures file.None? ==> imageFile == old(imageFile) && previewUrl == old(previewUrl)
    {
      if file.Some? {
        imageFile := file;
        previewUrl := Some(objectUrl);
      }
    }

    /** `handleSubmit`, from the enabled Publish button of a form whose required
        title and prompt fields are filled in: the submit pipeline run on the
        form's fields and picked image. Only a published prompt refreshes and
        navigates to the feed; the error shown is the outcome's and `loading`
        is false afterwards. */
    method HandleSubmit(env: Answers) returns (o: Outcome)
      requires db.Valid() && !loading && title != "" && promptText != ""
      modifies this`loading, this`error, db`objects, db`prompts, router
      ensures db.Valid() && !loading && error == ErrorOf(o)
      ensures var s := Submit(Fields(title, description, promptText), imageFile, env, db.projectUrl,
                              old(db.objects), old(db.prompts));
        o == s.outcome && db.objects == s.objects && db.prompts == s.prompts
      ensures o.Published? ==>
        router.log == old(router.log) + [Step.Refresh, Step.Push(FeedPath)]
      ensures !o.Published? ==>
        router.log == old(router.log)
    {
      loading := true;
      error := None;
      if imageFile.None? {
        o := NoImage;
      } else if env.user.None? {
        o := NotSignedIn;
      } else {
        o := Publish(imageFile.value, env.user.value, env);
      }
      error := ErrorOf(o);
      loading := false;
    }

    /** The upload and the insert of a submit that passed its first two
        checks. */
    method Publish(image: File, user: User, env: Answers) returns (o: Outcome)
      requires db.Valid() && env.user == Some(user)
      modifies db`objects, db`prompts, router
      ensures db.Valid()
      ensures Submission(o, db.objects, db.prompts)
           == UploadStep(Fields(title, description, promptText), user, image, env, db.projectUrl,
                         old(db.objects), old(db.prompts))
      ensures o.Published? ==>
        router.log == old(router.log) + [Step.Refresh, Step.Push(FeedPath)]
      ensures !o.Published? ==>
        router.log == old(router.log)
    {
      var path := FileName(user.id, env.token, image.name);
      var row := NewRow(env.newId, user.id, title, description, promptText, PublicUrl(db.projectUrl, path), env.now);
      assert UploadStep(Fields(title, description, promptText), user, image, env, db.projectUrl, db.objects, db.prompts)
          == var upload := UploadAnswer(db.objects, path, env.uploadReply);
             if upload.Failed? then Submission(UploadFailed(upload.message), db.objects, db.prompts)
             else InsertStep(path, row, env.insertReply, db.objects[path := image], db.prompts);
      var upload := UploadAnswer(db.objects, path, env.uploadReply);
      if upload.Failed? {
        return UploadFailed(upload.message);
      }
      o := InsertPrompt(path, image, row, env.insertReply);
    }

    /** The accepted upload of `image` to `path`, the insert of the new row
        that follows it, and the navigation that follows success. */
    method InsertPrompt(path: string, image: File, row: Prompt, reply: Reply) returns (o: Outcome)
      requires db.Valid()
      modifies db`objects, db`prompts, router
      ensures db.Valid()
      ensures Submission(o, db.objects, db.prompts)
           == InsertStep(path, row, reply, old(db.objects)[path := image], old(db.prompts))
      ensures o.Published? ==>
        router.log == old(router.log) + [Step.Refresh, Step.Push(FeedPath)]
      ensures !o.Published? ==>
        router.log == old(router.log)
    {
      db.objects := db.objects[path := image];
      var insert := InsertAnswer(db.prompts, row, reply);
      if insert.Failed? {
        return InsertFailed(insert.message);
      }
      db.prompts := InsertRow(db.prompts, row).value;
      router.Refresh();
      router.Push(FeedPath);
      o := Published(path, row);
    }
  }
}
