/**
 * What a GET or HEAD request resolves to: `process_get_and_head`,
 * `list_directory` and `retrieve_file` as decisions over the document tree.
 * Each decision ends either in an error status (the handler then calls
 * `send_error`) or in a file served with status 200 (the handler then calls
 * `send_headers` and returns the bytes).
 */
module Content {
  import opened Wrappers
  import opened FileSystem
  import opened UrlPath
  import opened Wire

  /** The type sent when `mimetypes.guess_type` has no answer. */
  const DefaultType := "application/octet-stream"

  /** The file a directory is served through. */
  const IndexName := "index.html"

  /** `mimetypes.guess_type(p)[0]`: a type, or `None` when the name says nothing. */
  type Guess = string -> Option<string>

  datatype Reply =
    | Refused(status: Status)                   // an error head only
    | Served(ctype: string, content: seq<bv8>)  // 200, with these bytes

  /** The `Content-Type` sent for the file at `p`. */
  function ContentType(guess: Guess, p: string): string {
    guess(p).GetOr(DefaultType)
  }

  /** `retrieve_file(p)`. */
  function RetrieveReply(fs: Tree, guess: Guess, p: string): (r: Reply)
    ensures r.Served? <==> Opens(fs, p)
    ensures r.Refused? ==> r.status == NOT_FOUND
    ensures r.Served? ==> r.content == fs[p].content
    ensures r.Served? && guess(p).Some? ==> r.ctype == guess(p).value
    ensures r.Served? && guess(p).None? ==> r.ctype == DefaultType
  {
    if Opens(fs, p) then Served(ContentType(guess, p), fs[p].content)
    else Refused(NOT_FOUND)
  }

  /** `list_directory(d)`: `os.listdir(d)` fails unless `d` is a directory
      that can be listed. */
  function ListingReply(fs: Tree, guess: Guess, d: string): (r: Reply)
    ensures (IsDir(fs, d) && fs[d].listing.Some? && IndexName in fs[d].listing.value)
      ==> r == RetrieveReply(fs, guess, JoinPath(d, IndexName))
    ensures !(IsDir(fs, d) && fs[d].listing.Some? && IndexName in fs[d].listing.value)
      ==> r == Refused(NOT_FOUND)
  {
    if IsDir(fs, d) && fs[d].listing.Some? && IndexName in fs[d].listing.value then
      RetrieveReply(fs, guess, JoinPath(d, IndexName))
    else
      Refused(NOT_FOUND)
  }

  /** `process_get_and_head` for request target `target`. */
  function GetHeadReply(fs: Tree, guess: Guess, root: string, target: string): Reply {
    match SafeConvertPath(fs, root, target)
    case None => Refused(NOT_FOUND)
    case Some(full) =>
      if IsDir(fs, full) then ListingReply(fs, guess, full)
      else if IsFile(fs, full) then RetrieveReply(fs, guess, full)
      else Refused(FORBIDDEN)
  }

  /** Every outcome is one of the three statuses of the `HttpCode` table that
      this code path uses: 404 when the converted path does not exist or the
      file or index cannot be read, 403 exactly when the path exists but is
      neither a directory nor a regular file, and 200 otherwise. */
  lemma GetHeadStatus(fs: Tree, guess: Guess, root: string, target: string)
    ensures var r, full := GetHeadReply(fs, guess, root, target), SafeResolve(root, target);
      && (r.Refused? ==> r.status == NOT_FOUND || r.status == FORBIDDEN)
      && (!Exists(fs, full) ==> r == Refused(NOT_FOUND))
      && (r == Refused(FORBIDDEN) <==> Exists(fs, full) && fs[full].Other?)
  {
    var r, full := GetHeadReply(fs, guess, root, target), SafeResolve(root, target);
    if !Exists(fs, full) {
      assert SafeConvertPath(fs, root, target).None?;
    } else {
      assert SafeConvertPath(fs, root, target) == Some(full);
      if IsDir(fs, full) {
        assert r == ListingReply(fs, guess, full);
      } else if IsFile(fs, full) {
        assert r == RetrieveReply(fs, guess, full);
      } else {
        assert fs[full].Other?;
      }
    }
  }

  /** A path that is a directory is answered by `list_directory`, a regular
      file by `retrieve_file`. */
  lemma GetHeadDispatch(fs: Tree, guess: Guess, root: string, target: string)
    ensures var full := SafeResolve(root, target);
      && (IsDir(fs, full) ==> GetHeadReply(fs, guess, root, target) == ListingReply(fs, guess, full))
      && (IsFile(fs, full) ==> GetHeadReply(fs, guess, root, target) == RetrieveReply(fs, guess, full))
  {
  }

  /** The index file of a directory whose listing names `index.html`. */
  lemma DirectoryWithIndex(fs: Tree, guess: Guess, root: string, target: string)
    requires var full := SafeResolve(root, target);
      IsDir(fs, full) && fs[full].listing.Some? && IndexName in fs[full].listing.value
    ensures GetHeadReply(fs, guess, root, target)
      == RetrieveReply(fs, guess, JoinPath(SafeResolve(root, target), IndexName))
  {
  }

  /** A directory whose listing fails or lacks `index.html` is not found. */
  lemma DirectoryWithoutIndex(fs: Tree, guess: Guess, root: string, target: string)
    requires var full := SafeResolve(root, target);
      IsDir(fs, full) && (fs[full].listing.None? || IndexName !in fs[full].listing.value)
    ensures GetHeadReply(fs, guess, root, target) == Refused(NOT_FOUND)
  {
  }

  /** Whatever is served is the content of a readable regular file, either
      the converted path itself or the `index.html` inside it; that file's
      path begins with the document root (and by
      `UrlPath.SafeResolveUnderRoot` the part after the root is made only of
      child names). */
  lemma ServedIsReadableFile(fs: Tree, guess: Guess, root: string, target: string)
    requires GetHeadReply(fs, guess, root, target).Served?
    ensures var r, full := GetHeadReply(fs, guess, root, target), SafeResolve(root, target);
      exists p :: (p == full || p == JoinPath(full, IndexName))
        && Opens(fs, p) && r.content == fs[p].content && r.ctype == ContentType(guess, p)
        && |root| <= |p| && p[..|root|] == root
  {
    var r, full := GetHeadReply(fs, guess, root, target), SafeResolve(root, target);
    SafeResolvePrefix(root, target);
    assert SafeConvertPath(fs, root, target) == Some(full);
    var p: string;
    if IsDir(fs, full) {
      p := JoinPath(full, IndexName);
      JoinPathExtends(full, IndexName);
      assert p[..|root|] == p[..|full|][..|root|];
    } else {
      p := full;
    }
    assert r == RetrieveReply(fs, guess, p);
    assert Opens(fs, p) && r.content == fs[p].content && r.ctype == ContentType(guess, p);
    assert |root| <= |p| && p[..|root|] == root;
  }
}
