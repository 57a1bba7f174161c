/**
 * `DocumentFileManager`: copying a picked file into the app's directory
 * under a uniquely prefixed name, and removing a file. The file system is a
 * `FileStore` object whose `files` map the methods update; the paths whose
 * removal throws are fixed when the store is made. The unique prefix, a
 * fresh `UUID` in the app, is a parameter.
 */
module DocumentFileManager {
  import opened Wrappers
  import opened Paths
  import opened Streams

  /** The file system: existing files and their contents. */
  class FileStore {
    var files: map<Url, seq<byte>>
    /** Paths `removeItem(at:)` throws on. */
    const undeletable: set<Url>

    constructor (files: map<Url, seq<byte>>, undeletable: set<Url>)
      ensures this.files == files && this.undeletable == undeletable
    {
      this.files := files;
      this.undeletable := undeletable;
    }
  }

  /** The copy's destination: the destination's directory, the prefix, `_`, the destination's own name. */
  function UniqueDestination(destination: Url, prefix: string): (u: Url)
    ensures u.parent == destination.parent
    ensures |u.last| == |prefix| + 1 + |destination.last|
    ensures u.last[..|prefix|] == prefix && u.last[|prefix|] == '_' && u.last[|prefix| + 1..] == destination.last
  {
    Sibling(destination, prefix + "_" + destination.last)
  }

  /** What `copyFile` returns, and the files afterwards. */
  datatype Copy = Copy(name: string, url: Option<Url>, files: map<Url, seq<byte>>)

  /**
   * `copyFile(from:to:)`: an existing file at the unique destination is
   * removed first (and a throwing removal ends the copy); the copy then needs
   * the source to exist. Success returns the source's name and the unique
   * destination; any failure returns `("", nil)`.
   */
  function Copied(files: map<Url, seq<byte>>, undeletable: set<Url>, source: Url, destination: Url, prefix: string): Copy
  {
    var target := UniqueDestination(destination, prefix);
    if target in files && target in undeletable then Copy("", None, files)
    else
      var cleared := files - {target};
      if source in cleared then Copy(source.last, Some(target), cleared[target := cleared[source]])
      else Copy("", None, cleared)
  }

  method CopyFile(store: FileStore, source: Url, destination: Url, prefix: string)
    returns (name: string, url: Option<Url>)
    modifies store
    ensures Copy(name, url, store.files) == Copied(old(store.files), store.undeletable, source, destination, prefix)
  {
    var uniqueDestination := UniqueDestination(destination, prefix);
    if uniqueDestination in store.files {
      if uniqueDestination in store.undeletable {
        return "", None;
      }
      store.files := store.files - {uniqueDestination};
    }
    if source !in store.files {
      return "", None;
    }
    store.files := store.files[uniqueDestination := store.files[source]];
    return source.last, Some(uniqueDestination);
  }

  /**
   * The result convention: a copy either succeeds, naming the source and the
   * unique destination, which then holds the source's bytes, or fails with
   * `("", nil)`; a file already at the destination is overwritten; and no
   * other file changes.
   */
  lemma CopyOutcome(files: map<Url, seq<byte>>, undeletable: set<Url>, source: Url, destination: Url, prefix: string)
    ensures var c := Copied(files, undeletable, source, destination, prefix);
      var target := UniqueDestination(destination, prefix);
      && (c.url.Some? <==> source in files && source != target && !(target in files && target in undeletable))
      && (c.url.Some? ==> c.name == source.last && c.url == Some(target) && c.files == files[target := files[source]])
      && (c.url.None? ==> c.name == "")
      && (forall u :: u != target ==> (u in c.files <==> u in files) && (u in files ==> c.files[u] == files[u]))
  {
  }

  /**
   * Copying onto itself: when the unique destination is the source, the
   * removal deletes the source and the copy then fails.
   */
  lemma CopyOntoSource(files: map<Url, seq<byte>>, undeletable: set<Url>, source: Url, destination: Url, prefix: string)
    requires source == UniqueDestination(destination, prefix) && source in files && source !in undeletable
    ensures Copied(files, undeletable, source, destination, prefix) == Copy("", None, files - {source})
  {
  }

  /** What `removeFile` returns, and the files afterwards. */
  datatype Removal = Removal(ok: bool, files: map<Url, seq<byte>>)

  /** `removeFile(at:)`: removes the file if it exists; `false` only when that removal throws. */
  function Removed(files: map<Url, seq<byte>>, undeletable: set<Url>, url: Url): Removal
  {
    if url !in files then Removal(true, files)
    else if url in undeletable then Removal(false, files)
    else Removal(true, files - {url})
  }

  method RemoveFile(store: FileStore, url: Url) returns (ok: bool)
    modifies store
    ensures Removal(ok, store.files) == Removed(old(store.files), store.undeletable, url)
  {
    if url in store.files {
      if url in store.undeletable {
        return false;
      }
      store.files := store.files - {url};
    }
    return true;
  }

  /**
   * A missing path reports success and changes nothing; failure means the
   * file was there and is still there; success means it is gone, with every
   * other file untouched.
   */
  lemma RemoveOutcome(files: map<Url, seq<byte>>, undeletable: set<Url>, url: Url)
    ensures var r := Removed(files, undeletable, url);
      && (url !in files ==> r == Removal(true, files))
      && (!r.ok <==> url in files && url in undeletable)
      && (!r.ok ==> r.files == files)
      && (r.ok ==> url !in r.files)
      && (forall u :: u != url ==> (u in r.files <==> u in files) && (u in files ==> r.files[u] == files[u]))
  {
  }

  /** Removing twice is removing once: the second call succeeds exactly when the first did, and changes nothing. */
  lemma RemoveIdempotent(files: map<Url, seq<byte>>, undeletable: set<Url>, url: Url)
    ensures var first := Removed(files, undeletable, url);
      Removed(first.files, undeletable, url) == first
  {
  }
}
