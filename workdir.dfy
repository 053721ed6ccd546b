/**
 * The current working directory as both scripts see it: file names mapped to
 * file contents. `os.listdir` gives each name once, in no particular order,
 * and `open(path, "w").write(text)` replaces whatever the file held.
 */
module Workdir {

  type Directory = map<string, string>

  const ReadmeName: string := "README.md"

  /** A possible result of `os.listdir` on `dir`: every name once, nothing else. */
  ghost predicate IsListing(listing: seq<string>, dir: Directory) {
    && (forall i, j :: 0 <= i < j < |listing| ==> listing[i] != listing[j])
    && (forall name :: name in listing <==> name in dir)
  }

  /** Write `content` to the file `name` in mode "w". */
  function WriteFile(dir: Directory, name: string, content: string): (after: Directory)
    ensures name in after && after[name] == content
    ensures after.Keys == dir.Keys + {name}
    ensures forall other :: other in dir && other != name ==> after[other] == dir[other]
  {
    dir[name := content]
  }

  /** Writing the same text twice leaves the same file as writing it once:
      mode "w" truncates instead of appending. */
  lemma WriteFileTwice(dir: Directory, name: string, content: string)
    ensures WriteFile(WriteFile(dir, name, content), name, content) == WriteFile(dir, name, content)
  {
  }

  /** A name occurs once in a listing exactly when the directory holds it. */
  lemma {:induction false} ListingMultiset(listing: seq<string>, dir: Directory, name: string)
    requires IsListing(listing, dir)
    ensures multiset(listing)[name] == if name in dir then 1 else 0
  {
    if name in dir {
      var i :| 0 <= i < |listing| && listing[i] == name;
      assert listing == listing[..i] + [name] + listing[i + 1..];
      assert name !in listing[..i] && name !in listing[i + 1..] by {
        forall j | 0 <= j < |listing| && j != i ensures listing[j] != name { }
      }
      assert multiset(listing)[name] == multiset(listing[..i])[name] + 1 + multiset(listing[i + 1..])[name];
    } else {
      assert name !in listing;
    }
  }

}
