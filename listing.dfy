/**
 * The value classes of rssbox/modules/seedr.py: what a Seedr account lists (files,
 * folders, torrents) and the reply to adding a torrent. The Seedr web API itself is
 * not modelled; its answers are inputs. A folder is given together with its own
 * listing (what `SeedrFolder.list()` would return), so a listing is a finite tree.
 */
module Listing {
  import opened Common

  /** `SeedrFile`: a stored file; `id` is its `folder_file_id`. */
  datatype SeedrFile = SeedrFile(name: string, size: int, folderId: string, id: int)

  /** `SeedrFolder`: a folder's id and name. */
  datatype SeedrFolder = SeedrFolder(id: string, name: string)

  /** `SeedrTorrent`: a torrent still being fetched by Seedr (its float progress is left out). */
  datatype SeedrTorrent = SeedrTorrent(id: string, name: string, size: int, stopped: bool)

  /** A folder with the files and sub-folders its listing returns. */
  datatype Tree = Tree(info: SeedrFolder, files: seq<SeedrFile>, subfolders: seq<Tree>)

  /** `SeedrList`: the root listing of an account. */
  datatype SeedrList = SeedrList(folders: seq<Tree>, files: seq<SeedrFile>, torrents: seq<SeedrTorrent>)

  /** What `find_seedr` returns and `upload` dispatches on: a file or a folder. */
  datatype Item = FileItem(file: SeedrFile) | FolderItem(folder: Tree)

  /** A JSON scalar as it can appear in the reply's `result` and `error` fields. */
  datatype JsonValue = JBool(b: bool) | JInt(i: int) | JText(s: string) | JNull

  /** Python truthiness of a JSON scalar. */
  predicate JsonTruthy(v: JsonValue) {
    match v
    case JBool(b) => b
    case JInt(i) => i != 0
    case JText(s) => s != ""
    case JNull => false
  }

  /** Python's `v == True`, which also holds for the integer 1. */
  predicate EqualsTrue(v: JsonValue) {
    v == JBool(true) || v == JInt(1)
  }

  /** The dictionary `addTorrent` returns; a missing key is `None`. */
  datatype RawReply = RawReply(
    code: Option<int>, result: Option<JsonValue>, error: Option<JsonValue>, title: Option<string>)

  /** `SeedrAddDownloadResponse`. */
  datatype AddResponse = AddResponse(code: int, error: Option<JsonValue>, name: Option<string>, success: bool)

  /**
   * `SeedrAddDownloadResponse(dict)`. It raises KeyError when `code` is missing, and
   * when `code` is 200 but `result` is missing. Otherwise the reply succeeded exactly
   * when `code` is 200 and `result` equals True; `error` is the `error` field when that
   * is truthy and falls back to the `result` field; `name` is the `title` field.
   */
  function ParseReply(raw: RawReply): (r: Result<AddResponse>)
    ensures r.Raised? <==> raw.code.None? || (raw.code == Some(200) && raw.result.None?)
    ensures r.Ok? ==> r.value.code == raw.code.value && r.value.name == raw.title
    ensures r.Ok? ==>
      (r.value.success <==> raw.code == Some(200) && raw.result.Some? && EqualsTrue(raw.result.value))
    ensures r.Ok? && raw.error.Some? && JsonTruthy(raw.error.value) ==> r.value.error == raw.error
    ensures r.Ok? && !(raw.error.Some? && JsonTruthy(raw.error.value)) ==> r.value.error == raw.result
  {
    if raw.code.None? then Raised("KeyError: 'code'")
    else
      var code := raw.code.value;
      var error := if raw.error.Some? && JsonTruthy(raw.error.value) then raw.error else raw.result;
      if code != 200 then Ok(AddResponse(code, error, raw.title, false))
      else if raw.result.None? then Raised("KeyError: 'result'")
      else Ok(AddResponse(code, error, raw.title, EqualsTrue(raw.result.value)))
  }

  /** A successful reply names no error of its own unless Seedr sent one: its error is `result`. */
  lemma SuccessfulReplyError(raw: RawReply)
    requires ParseReply(raw).Ok? && ParseReply(raw).value.success
    requires raw.error.None?
    ensures ParseReply(raw).value.error.Some? && EqualsTrue(ParseReply(raw).value.error.value)
  {
  }
}
