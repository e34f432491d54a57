/**
 * `map_reading_status`: a StoryGraph read status to one of the four shelves
 * Goodreads imports.
 */
module Shelves {
  import opened Text

  /** The shelves a converted row can land on. */
  predicate IsShelf(s: string) {
    s == "read" || s == "currently-reading" || s == "to-read" || s == "abandoned"
  }

  /** The statuses the converter recognises, after `lower` and `strip`. */
  const StatusMap: map<string, string> := map[
    "read" := "read",
    "currently-reading" := "currently-reading",
    "currently reading" := "currently-reading",
    "to-read" := "to-read",
    "to read" := "to-read",
    "to-read pile" := "to-read",
    "dnf" := "abandoned"]

  /** The status text the lookup uses: lower-cased, then stripped. */
  function StatusKey(status: string): string {
    Strip(Lower(status))
  }

  /** `status_map.get(key, "to-read")`. */
  function StatusLookup(key: string): (shelf: string)
    ensures IsShelf(shelf)
  {
    if key in StatusMap then StatusMap[key] else "to-read"
  }

  /** Empty and unrecognised statuses both go to `to-read`. */
  function MapReadingStatus(status: string): (shelf: string)
    ensures IsShelf(shelf)
    ensures status == [] ==> shelf == "to-read"
  {
    if status == [] then "to-read" else StatusLookup(StatusKey(status))
  }

  // ---------------------------------------------------------------------------
  // Lemmas
  // ---------------------------------------------------------------------------

  lemma LookupCases(key: string)
    ensures StatusLookup(key) == "read" <==> key == "read"
    ensures StatusLookup(key) == "abandoned" <==> key == "dnf"
    ensures StatusLookup(key) == "currently-reading" <==> key in {"currently-reading", "currently reading"}
    ensures StatusLookup(key) == "to-read" <==> key !in {"read", "dnf", "currently-reading", "currently reading"}
  {
  }

  /** Which normalised statuses land on which shelf; everything else is `to-read`. */
  lemma ShelfCases(status: string)
    ensures MapReadingStatus(status) == "read" <==> StatusKey(status) == "read"
    ensures MapReadingStatus(status) == "abandoned" <==> StatusKey(status) == "dnf"
    ensures MapReadingStatus(status) == "currently-reading"
        <==> StatusKey(status) in {"currently-reading", "currently reading"}
    ensures MapReadingStatus(status) == "to-read"
        <==> StatusKey(status) !in {"read", "dnf", "currently-reading", "currently reading"}
  {
    var key := StatusKey(status);
    if status == [] {
      assert key == [];
      assert MapReadingStatus(status) == "to-read";
    } else {
      assert MapReadingStatus(status) == StatusLookup(key);
      LookupCases(key);
    }
  }

  lemma EmptyKeyShelf(a: string, b: string)
    requires StatusKey(a) == StatusKey(b) && a == []
    ensures MapReadingStatus(a) == MapReadingStatus(b)
  {
    assert StatusKey(a) == [];
    LookupCases([]);
    assert b != [] ==> MapReadingStatus(b) == StatusLookup([]);
  }

  /** The shelf depends on the normalised status alone. */
  lemma SameKeySameShelf(a: string, b: string)
    requires StatusKey(a) == StatusKey(b)
    ensures MapReadingStatus(a) == MapReadingStatus(b)
  {
    if a == [] {
      EmptyKeyShelf(a, b);
    } else if b == [] {
      EmptyKeyShelf(b, a);
    }
  }

  /** Blanks around the status do not change the shelf. */
  lemma PaddingIgnored(w1: string, status: string, w2: string)
    requires AllSpace(w1) && AllSpace(w2)
    ensures MapReadingStatus(w1 + status + w2) == MapReadingStatus(status)
  {
    LowerConcat(w1 + status, w2);
    LowerConcat(w1, status);
    LowerSpaces(w1);
    LowerSpaces(w2);
    StripPadding(w1, Lower(status), w2);
    SameKeySameShelf(w1 + status + w2, status);
  }

  /** Letter case does not change the shelf. */
  lemma CaseIgnored(status: string)
    ensures MapReadingStatus(Lower(status)) == MapReadingStatus(status)
  {
    LowerTwice(status);
    SameKeySameShelf(Lower(status), status);
  }

  /** A shelf name is already normalised. */
  lemma ShelfIsKey(shelf: string)
    requires IsShelf(shelf)
    ensures StatusKey(shelf) == shelf
  {
    if shelf == "read" {
      assert Lower("read") == "read";
    } else if shelf == "currently-reading" {
      assert Lower("currently-reading") == "currently-reading";
    } else if shelf == "to-read" {
      assert Lower("to-read") == "to-read";
    } else {
      assert Lower("abandoned") == "abandoned";
    }
    StripUnpadded(shelf);
  }

  /**
   * Three of the shelves are also statuses and map to themselves; `abandoned`
   * is not in the vocabulary (see `AbandonedNotRecognised`).
   */
  lemma ShelfFixed(shelf: string)
    requires IsShelf(shelf) && shelf != "abandoned"
    ensures MapReadingStatus(shelf) == shelf
  {
    ShelfIsKey(shelf);
    assert MapReadingStatus(shelf) == StatusLookup(shelf);
    if shelf == "read" {
      assert StatusLookup("read") == "read";
    } else if shelf == "currently-reading" {
      assert StatusLookup("currently-reading") == "currently-reading";
    } else {
      assert StatusLookup("to-read") == "to-read";
    }
  }

  lemma AbandonedNotRecognised()
    ensures MapReadingStatus("abandoned") == "to-read"
  {
    ShelfIsKey("abandoned");
    assert MapReadingStatus("abandoned") == StatusLookup("abandoned");
    LookupCases("abandoned");
  }

  /** Mapping a mapped status again changes nothing, unless it was `abandoned`. */
  lemma Idempotent(status: string)
    requires MapReadingStatus(status) != "abandoned"
    ensures MapReadingStatus(MapReadingStatus(status)) == MapReadingStatus(status)
  {
    ShelfFixed(MapReadingStatus(status));
  }

  lemma DnfExample()
    ensures MapReadingStatus("DNF") == "abandoned"
  {
    assert Lower("DNF") == "dnf";
    StripUnpadded("dnf");
    assert MapReadingStatus("DNF") == StatusLookup("dnf");
  }

  lemma CurrentlyReadingUnpadded()
    ensures MapReadingStatus("Currently Reading") == "currently-reading"
  {
    assert Lower("Currently Reading") == "currently reading";
    StripUnpadded("currently reading");
    assert MapReadingStatus("Currently Reading") == StatusLookup("currently reading");
  }

  lemma CurrentlyReadingExample()
    ensures MapReadingStatus(" Currently Reading ") == "currently-reading"
  {
    assert " Currently Reading " == " " + "Currently Reading" + " ";
    PaddingIgnored(" ", "Currently Reading", " ");
    CurrentlyReadingUnpadded();
  }

  lemma UnknownExample()
    ensures MapReadingStatus("paused") == "to-read"
  {
    assert Lower("paused") == "paused";
    StripUnpadded("paused");
    assert MapReadingStatus("paused") == StatusLookup("paused");
  }
}
