// frontend/src/services/postService.js: the request bodies createPost and
// updatePost send. A FormData object is a list of key/value entries built by
// successive `append` calls.

module PostService {
  import opened Common

  /** A browser File, as far as the pages look at it. */
  datatype Upload = Upload(name: string, size: nat)

  /** One FormData entry. */
  datatype FormField = TextField(key: string, text: string) | FileField(key: string, file: Upload)

  function KeyOf(f: FormField): string
  {
    match f
    case TextField(k, _) => k
    case FileField(k, _) => k
  }

  /** `formData.get(key)` for a text entry: the first entry with that key. */
  function Get(fields: seq<FormField>, key: string): (r: Option<string>)
    ensures r.None? <==> forall k :: 0 <= k < |fields| ==> !(fields[k].TextField? && fields[k].key == key)
  {
    if fields == [] then None
    else if fields[0].TextField? && fields[0].key == key then Some(fields[0].text)
    else Get(fields[1..], key)
  }

  /** `formData.getAll('files')`: every uploaded file, in order. */
  function Files(fields: seq<FormField>): (r: seq<Upload>)
    ensures |r| <= |fields|
    ensures (forall k :: 0 <= k < |fields| ==> fields[k].TextField?) ==> r == []
  {
    if fields == [] then []
    else if fields[0].FileField? && fields[0].key == "files" then [fields[0].file] + Files(fields[1..])
    else Files(fields[1..])
  }

  lemma {:induction false} GetAppend(a: seq<FormField>, b: seq<FormField>, key: string)
    ensures Get(a + b, key) == if Get(a, key).Some? then Get(a, key) else Get(b, key)
  {
    if a == [] {
      assert a + b == b;
    } else {
      assert (a + b)[1..] == a[1..] + b;
      GetAppend(a[1..], b, key);
    }
  }

  lemma {:induction false} FilesAppend(a: seq<FormField>, b: seq<FormField>)
    ensures Files(a + b) == Files(a) + Files(b)
  {
    if a == [] {
      assert a + b == b;
    } else {
      assert (a + b)[1..] == a[1..] + b;
      FilesAppend(a[1..], b);
    }
  }

  /** One `formData.append(key, value)` when the value is present, none otherwise. */
  function Entry(key: string, v: Option<string>): seq<FormField>
  {
    if v.Some? then [TextField(key, v.value)] else []
  }

  /** The text entries appended one after the other, each only when present. */
  function Entries(kvs: seq<(string, Option<string>)>): (r: seq<FormField>)
    ensures forall k :: 0 <= k < |r| ==> r[k].TextField? && exists j :: 0 <= j < |kvs| && kvs[j].0 == r[k].key
  {
    if kvs == [] then []
    else
      var rest := Entries(kvs[1..]);
      assert forall k :: 0 <= k < |rest| ==> exists j :: 1 <= j < |kvs| && kvs[j].0 == rest[k].key by {
        forall k | 0 <= k < |rest| ensures exists j :: 1 <= j < |kvs| && kvs[j].0 == rest[k].key {
          var j :| 0 <= j < |kvs[1..]| && kvs[1..][j].0 == rest[k].key;
          assert kvs[j + 1].0 == rest[k].key;
        }
      }
      Entry(kvs[0].0, kvs[0].1) + rest
  }

  /** How many of the values are present. */
  function Present(kvs: seq<(string, Option<string>)>): nat
  {
    if kvs == [] then 0 else (if kvs[0].1.Some? then 1 else 0) + Present(kvs[1..])
  }

  lemma {:induction false} EntriesLength(kvs: seq<(string, Option<string>)>)
    ensures |Entries(kvs)| == Present(kvs)
  {
    if kvs != [] {
      EntriesLength(kvs[1..]);
    }
  }

  predicate DistinctKeys(kvs: seq<(string, Option<string>)>)
  {
    forall a, b :: 0 <= a < b < |kvs| ==> kvs[a].0 != kvs[b].0
  }

  /** With distinct keys, reading a key back gives the value appended for it, or null. */
  lemma {:induction false} GetEntries(kvs: seq<(string, Option<string>)>, i: nat)
    requires DistinctKeys(kvs) && i < |kvs|
    ensures Get(Entries(kvs), kvs[i].0) == kvs[i].1
  {
    var key := kvs[i].0;
    var head := Entry(kvs[0].0, kvs[0].1);
    var rest := Entries(kvs[1..]);
    GetAppend(head, rest, key);
    if i == 0 {
      if kvs[0].1.None? {
        forall k | 0 <= k < |rest| ensures rest[k].key != key {
          var j :| 0 <= j < |kvs[1..]| && kvs[1..][j].0 == rest[k].key;
          assert kvs[j + 1].0 == rest[k].key;
        }
      }
    } else {
      GetEntries(kvs[1..], i - 1);
    }
  }

  /** JavaScript truthiness of an optional string: present and non-empty. */
  predicate Truthy(s: Option<string>)
  {
    s.Some? && s.value != []
  }

  // ---------------------------------------------------------------------
  // createPost

  /** The `postData` GroupPage hands to createPost. */
  datatype NewPost = NewPost(title: string, content: string, deadline: Option<string>, files: seq<Upload>)

  /** A multipart FormData body, or the plain object sent as JSON. */
  datatype Body = Multipart(fields: seq<FormField>) | Json(data: NewPost)

  /** One 'files' entry per upload, in order. */
  function FileFields(files: seq<Upload>): (r: seq<FormField>)
    ensures |r| == |files|
    ensures forall k :: 0 <= k < |r| ==> r[k] == FileField("files", files[k])
  {
    if files == [] then [] else [FileField("files", files[0])] + FileFields(files[1..])
  }

  /** File entries add no text value and are read back by getAll('files'). */
  lemma {:induction false} FileFieldsRead(text: seq<FormField>, files: seq<Upload>, key: string)
    ensures Get(text + FileFields(files), key) == Get(text, key)
    ensures Files(text + FileFields(files)) == Files(text) + files
  {
    GetAppend(text, FileFields(files), key);
    FilesAppend(text, FileFields(files));
    FileFieldsFiles(files);
  }

  lemma {:induction false} FileFieldsFiles(files: seq<Upload>)
    ensures Files(FileFields(files)) == files
  {
    if files != [] {
      FileFieldsFiles(files[1..]);
    }
  }

  /** Appends one 'files' entry per upload, in order (`files.forEach(...)`). */
  method AppendFiles(fields: seq<FormField>, files: seq<Upload>) returns (r: seq<FormField>)
    ensures r == fields + FileFields(files)
    ensures |r| == |fields| + |files|
    ensures r[..|fields|] == fields
    ensures forall k :: 0 <= k < |files| ==> r[|fields| + k] == FileField("files", files[k])
    ensures Files(r) == Files(fields) + files
    ensures forall key :: Get(r, key) == Get(fields, key)
  {
    r := fields;
    var i := 0;
    while i < |files|
      invariant 0 <= i <= |files|
      invariant r == fields + FileFields(files[..i])
    {
      FileFieldsSnoc(files[..i], files[i]);
      assert files[..i + 1] == files[..i] + [files[i]];
      r := r + [FileField("files", files[i])];
      i := i + 1;
    }
    assert files[..i] == files;
    assert r[..|fields|] == fields;
    forall key ensures Get(r, key) == Get(fields, key) {
      FileFieldsRead(fields, files, key);
    }
    FileFieldsRead(fields, files, []);
  }

  lemma FileFieldsSnoc(files: seq<Upload>, f: Upload)
    ensures FileFields(files + [f]) == FileFields(files) + [FileField("files", f)]
  {
  }


  /**
   * createPost: multipart exactly when there are files; then title and
   * content always, the deadline only when truthy, and the files in order.
   */
  method CreatePostBody(p: NewPost) returns (b: Body)
    ensures b.Multipart? <==> |p.files| > 0
    ensures b.Json? ==> b.data == p
    ensures b.Multipart? ==> Get(b.fields, "title") == Some(p.title)
    ensures b.Multipart? ==> Get(b.fields, "content") == Some(p.content)
    ensures b.Multipart? ==> Get(b.fields, "deadline") == if Truthy(p.deadline) then p.deadline else None
    ensures b.Multipart? ==> Files(b.fields) == p.files
    ensures b.Multipart? ==> |b.fields| == (if Truthy(p.deadline) then 3 else 2) + |p.files|
  {
    if |p.files| > 0 {
      var dl := if Truthy(p.deadline) then p.deadline else None;
      var text := Entries(CreateKeys(p.title, p.content, dl));
      var fields := AppendFiles(text, p.files);
      CreateText(p.title, p.content, dl, p.files);
      b := Multipart(fields);
    } else {
      b := Json(p);
    }
  }

  /** The text entries of createPost's multipart body, in append order. */
  function CreateKeys(title: string, content: string, dl: Option<string>): seq<(string, Option<string>)>
  {
    [("title", Some(title)), ("content", Some(content)), ("deadline", dl)]
  }

  /** Each text value of createPost reads back under its key. */
  lemma CreateEntries(title: string, content: string, dl: Option<string>)
    ensures var text := Entries(CreateKeys(title, content, dl));
      && Get(text, "title") == Some(title)
      && Get(text, "content") == Some(content)
      && Get(text, "deadline") == dl
      && Files(text) == []
      && |text| == (if dl.Some? then 3 else 2)
  {
    var kvs := CreateKeys(title, content, dl);
    assert DistinctKeys(kvs);
    GetEntries(kvs, 0);
    GetEntries(kvs, 1);
    GetEntries(kvs, 2);
    EntriesLength(kvs);
    assert Present(kvs) == 2 + Present(kvs[2..]);
  }

  lemma CreateText(title: string, content: string, dl: Option<string>, files: seq<Upload>)
    ensures var body := Entries(CreateKeys(title, content, dl)) + FileFields(files);
      && Get(body, "title") == Some(title)
      && Get(body, "content") == Some(content)
      && Get(body, "deadline") == dl
      && Files(body) == files
      && |body| == (if dl.Some? then 3 else 2) + |files|
  {
    var text := Entries(CreateKeys(title, content, dl));
    CreateEntries(title, content, dl);
    FileFieldsRead(text, files, "title");
    FileFieldsRead(text, files, "content");
    FileFieldsRead(text, files, "deadline");
  }

  // ---------------------------------------------------------------------
  // updatePost

  /** JSON.stringify of an integer. */
  function IntText(x: int): string
  {
    if x < 0 then "-" + NatToString(-x) else NatToString(x)
  }

  /** The items of JSON.stringify(xs) between the brackets. */
  function JoinInts(xs: seq<int>): string
  {
    if xs == [] then []
    else if |xs| == 1 then IntText(xs[0])
    else IntText(xs[0]) + "," + JoinInts(xs[1..])
  }

  /** JSON.stringify of an array of integers: no white space. */
  function JsonInts(xs: seq<int>): string
  {
    "[" + JoinInts(xs) + "]"
  }

  /** The `postData` PostPage hands to updatePost; None stands for undefined. */
  datatype PostUpdate = PostUpdate(
    title: Option<string>, content: Option<string>, deadline: Option<string>,
    fileIdsToDelete: seq<int>, files: seq<Upload>)

  /**
   * updatePost: title, content and deadline each when not undefined (an
   * empty deadline is sent), the ids to delete as one JSON array only when
   * there are any, and one 'files' entry per new file.
   */
  method UpdatePostBody(p: PostUpdate) returns (fields: seq<FormField>)
    ensures Get(fields, "title") == p.title
    ensures Get(fields, "content") == p.content
    ensures Get(fields, "deadline") == p.deadline
    ensures Get(fields, "file_ids_to_delete") ==
      if |p.fileIdsToDelete| > 0 then Some(JsonInts(p.fileIdsToDelete)) else None
    ensures Files(fields) == p.files
  {
    var ids := if |p.fileIdsToDelete| > 0 then Some(JsonInts(p.fileIdsToDelete)) else None;
    var text := Entries(UpdateKeys(p.title, p.content, p.deadline, ids));
    fields := AppendFiles(text, p.files);
    UpdateText(p.title, p.content, p.deadline, ids, p.files);
  }

  /** The text entries of updatePost's body, in append order. */
  function UpdateKeys(title: Option<string>, content: Option<string>, deadline: Option<string>, ids: Option<string>)
    : seq<(string, Option<string>)>
  {
    [("title", title), ("content", content), ("deadline", deadline), ("file_ids_to_delete", ids)]
  }

  /** Each text value of updatePost reads back under its key. */
  lemma UpdateEntries(title: Option<string>, content: Option<string>, deadline: Option<string>, ids: Option<string>)
    ensures var text := Entries(UpdateKeys(title, content, deadline, ids));
      && Get(text, "title") == title
      && Get(text, "content") == content
      && Get(text, "deadline") == deadline
      && Get(text, "file_ids_to_delete") == ids
      && Files(text) == []
  {
    var kvs := UpdateKeys(title, content, deadline, ids);
    assert DistinctKeys(kvs);
    GetEntries(kvs, 0);
    GetEntries(kvs, 1);
    GetEntries(kvs, 2);
    GetEntries(kvs, 3);
  }

  lemma UpdateText(title: Option<string>, content: Option<string>, deadline: Option<string>, ids: Option<string>,
                   files: seq<Upload>)
    ensures var body := Entries(UpdateKeys(title, content, deadline, ids)) + FileFields(files);
      && Get(body, "title") == title
      && Get(body, "content") == content
      && Get(body, "deadline") == deadline
      && Get(body, "file_ids_to_delete") == ids
      && Files(body) == files
  {
    var text := Entries(UpdateKeys(title, content, deadline, ids));
    UpdateEntries(title, content, deadline, ids);
    FileFieldsRead(text, files, "title");
    FileFieldsRead(text, files, "content");
    FileFieldsRead(text, files, "deadline");
    FileFieldsRead(text, files, "file_ids_to_delete");
  }

}
