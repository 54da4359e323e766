/**
 * The wordlist directory scan of `load_wordlists` (hackwifi.py:55-82): the
 * regular files whose names end in ".txt", as full paths, in listing order.
 */
module Wordlists {
  import opened Wrappers
  import opened Text

  /** One name returned by `os.listdir`, with what `os.path.isfile` says of its full path. */
  datatype DirEntry = DirEntry(name: string, isFile: bool)

  const WordlistSuffix := ".txt"

  /** `os.path.join(dir, name)` for two components (POSIX rules). */
  function JoinPath(dir: string, name: string): (r: string)
    ensures EndsWith(r, name)
  {
    var r := if StartsWith(name, "/") then name
             else if dir == "" || EndsWith(dir, "/") then dir + name
             else dir + "/" + name;
    assert r[|r| - |name|..] == name;
    r
  }

  /**
   * Where `os.path.join` puts a name: a relative name goes under `dir`, with
   * one '/' between them when `dir` does not end with one; an absolute name
   * replaces `dir`.
   */
  lemma JoinPathPlacement(dir: string, name: string)
    ensures !StartsWith(name, "/") ==> StartsWith(JoinPath(dir, name), dir)
    ensures !StartsWith(name, "/") && dir != "" && !EndsWith(dir, "/") ==>
      |JoinPath(dir, name)| == |dir| + 1 + |name| && JoinPath(dir, name)[|dir|] == '/'
    ensures StartsWith(name, "/") ==> JoinPath(dir, name) == name
  {
    var r := JoinPath(dir, name);
    if !StartsWith(name, "/") {
      assert r[..|dir|] == dir;
    }
  }

  lemma EndsWithTrans(s: string, t: string, u: string)
    requires EndsWith(s, t) && EndsWith(t, u)
    ensures EndsWith(s, u)
  {
    assert s[|s| - |u|..] == s[|s| - |t|..][|t| - |u|..];
  }

  /** The acceptance test of hackwifi.py:70-72. */
  predicate IsWordlist(e: DirEntry) {
    EndsWith(e.name, WordlistSuffix) && e.isFile
  }

  /** The full paths of the wordlist files among `entries`. */
  function TxtFiles(dir: string, entries: seq<DirEntry>): (r: seq<string>)
    ensures |r| <= |entries|
    ensures forall k :: 0 <= k < |r| ==> EndsWith(r[k], WordlistSuffix)
  {
    if entries == [] then []
    else
      var e := entries[0];
      var rest := TxtFiles(dir, entries[1..]);
      if IsWordlist(e) then
        EndsWithTrans(JoinPath(dir, e.name), e.name, WordlistSuffix);
        [JoinPath(dir, e.name)] + rest
      else rest
  }

  /**
   * `load_wordlists` on the absolute path `dir`: `listing` is what `os.listdir`
   * returns, `None` when the directory is missing (it is then created, empty)
   * or cannot be read (the exception handler clears the list).
   */
  function LoadWordlists(dir: string, listing: Option<seq<DirEntry>>): (r: seq<string>)
    ensures listing.None? ==> r == []
    ensures listing.Some? ==> |r| <= |listing.value|
    ensures forall k :: 0 <= k < |r| ==> EndsWith(r[k], WordlistSuffix)
  {
    match listing
    case None => []
    case Some(entries) => TxtFiles(dir, entries)
  }

  /** Every wordlist file of the listing is loaded. */
  lemma {:induction false} TxtFilesComplete(dir: string, entries: seq<DirEntry>, e: DirEntry)
    requires e in entries && IsWordlist(e)
    ensures JoinPath(dir, e.name) in TxtFiles(dir, entries)
    decreases |entries|
  {
    if entries[0] != e {
      assert e in entries[1..];
      TxtFilesComplete(dir, entries[1..], e);
    }
  }

  /** Only wordlist files of the listing are loaded. */
  lemma {:induction false} TxtFilesSound(dir: string, entries: seq<DirEntry>, p: string)
    requires p in TxtFiles(dir, entries)
    ensures exists e :: e in entries && IsWordlist(e) && p == JoinPath(dir, e.name)
    decreases |entries|
  {
    var e := entries[0];
    if !(IsWordlist(e) && p == JoinPath(dir, e.name)) {
      TxtFilesSound(dir, entries[1..], p);
      var x :| x in entries[1..] && IsWordlist(x) && p == JoinPath(dir, x.name);
      assert x in entries;
    }
  }

  /** Files are kept in listing order: the scan of a concatenated listing is the concatenation. */
  lemma {:induction false} TxtFilesAppend(dir: string, xs: seq<DirEntry>, ys: seq<DirEntry>)
    ensures TxtFiles(dir, xs + ys) == TxtFiles(dir, xs) + TxtFiles(dir, ys)
    decreases |xs|
  {
    if xs == [] {
      assert xs + ys == ys;
    } else {
      assert (xs + ys)[0] == xs[0];
      assert (xs + ys)[1..] == xs[1..] + ys;
      TxtFilesAppend(dir, xs[1..], ys);
    }
  }

  /** A listing of relative names (as `os.listdir` returns) loads only paths under the directory. */
  lemma TxtFilesUnderDir(dir: string, entries: seq<DirEntry>, p: string)
    requires forall e :: e in entries ==> !StartsWith(e.name, "/")
    requires p in TxtFiles(dir, entries)
    ensures StartsWith(p, dir) && EndsWith(p, WordlistSuffix)
  {
    TxtFilesSound(dir, entries, p);
    var e :| e in entries && IsWordlist(e) && p == JoinPath(dir, e.name);
    EndsWithTrans(p, e.name, WordlistSuffix);
    JoinPathPlacement(dir, e.name);
  }
}
