/** The log file: a text file of newline-separated entries that the scraper
    creates when missing, reads whole, and appends to one entry at a time. */
module LogStore {
  import opened Wrappers
  import opened Strings

  /** The only file extension `update_file` accepts. */
  const LogExtension: string := ".txt"

  /** What separates entries in the file. */
  const Newline: string := "\n"

  datatype FileError =
    | NameError     // the file name does not end in `.txt`
    | FileNotFound  // reading a file that does not exist

  /** The split at the heart of `get_current_urls`: an empty file has no
      lines (not one empty line); otherwise the lines are the pieces between
      the newlines. */
  function Lines(data: string): (lines: seq<string>)
    ensures data == "" <==> lines == []
  {
    if data == "" then [] else Split(data, Newline)
  }

  /** Joining the lines with newlines gives back the text, and no line holds
      a newline. */
  lemma LinesMeaning(data: string)
    ensures data != "" ==> Join(Lines(data), Newline) == data
    ensures forall k :: 0 <= k < |Lines(data)| ==> '\n' !in Lines(data)[k]
  {
    if data != "" {
      JoinSplit(data, Newline);
      SplitPieces(data, Newline);
      forall k | 0 <= k < |Split(data, Newline)| ensures '\n' !in Split(data, Newline)[k] {
        ContainsChar(Split(data, Newline)[k], '\n');
      }
    }
  }

  /** Reading the lines back is the inverse of writing them: non-empty text
      made of lines without newlines splits into exactly those lines. */
  lemma LinesJoin(lines: seq<string>)
    requires lines != [] && Join(lines, Newline) != ""
    requires forall k :: 0 <= k < |lines| ==> '\n' !in lines[k]
    ensures Lines(Join(lines, Newline)) == lines
  {
    forall k | 0 <= k < |lines| ensures !Contains(lines[k], Newline) {
      ContainsChar(lines[k], '\n');
    }
    SplitJoin(lines, Newline);
  }

  /** What appending `"\n" + entry` does to the lines read back: the entry
      becomes one more line after the old ones; after an empty file, the
      lines are an empty one and the entry. */
  lemma LinesAfterAppend(old_data: string, entry: string)
    requires '\n' !in entry
    ensures Lines(old_data + Newline + entry) == (if old_data == "" then [""] else Lines(old_data)) + [entry]
  {
    ContainsChar(entry, '\n');
    SplitAppend(old_data, Newline, entry);
  }

  /** The file at one path: whether it exists and, if it does, its text. */
  class LogFile {
    const name: string
    var present: bool
    var contents: string

    /** A file that does not exist has no text. */
    ghost predicate Valid()
      reads this
    {
      present || contents == ""
    }

    /** The file as found on disk before the run: absent, or present with
        the given text. */
    constructor (name: string, existing: Option<string>)
      ensures Valid() && this.name == name
      ensures present == existing.Some?
      ensures contents == (if existing.Some? then existing.value else "")
    {
      this.name := name;
      present := existing.Some?;
      contents := if existing.Some? then existing.value else "";
    }

    /** `check_output_file`: creates the file, empty, when it is missing;
        an existing file keeps its text. */
    method CheckOutputFile()
      requires Valid()
      modifies this
      ensures Valid() && present && contents == old(contents)
    {
      if !present {
        present := true;
        contents := "";
      }
    }

    /** `get_current_urls`: reading a missing file fails; otherwise the
        result is the file's lines. */
    method GetCurrentUrls() returns (r: Result<seq<string>, FileError>)
      ensures r == if present then Success(Lines(contents)) else Failure(FileNotFound)
    {
      if !present {
        return Failure(FileNotFound);
      }
      r := Success(Lines(contents));
    }

    /** `update_file`: a name without the `.txt` ending fails before anything
        is written. Otherwise `"\n" + entry` is appended, creating the file if
        needed; a write that fails (`writeFails`) is swallowed and leaves the
        file as it was. */
    method UpdateFile(entry: string, writeFails: bool) returns (outcome: Outcome<FileError>)
      requires Valid()
      modifies this
      ensures Valid()
      ensures outcome == (if EndsWith(name, LogExtension) then Pass else Fail(NameError))
      ensures outcome.Pass? && !writeFails ==> present && contents == old(contents) + Newline + entry
      ensures outcome.Fail? || writeFails ==> present == old(present) && contents == old(contents)
    {
      if !EndsWith(name, LogExtension) {
        return Fail(NameError);
      }
      outcome := Pass;
      if !writeFails {
        present := true;
        contents := contents + Newline + entry;
      }
    }
  }
}
