/**
 * Saving a project from the main process: `performSave` and the process-wide current file
 * path it keeps (`currentFilePath`, which "new file" clears). The save dialog's answer is an
 * input; the project data arrives already serialized as JSON text.
 */
module Save {
  import opened Wrappers
  import opened FileSystem

  /** What `dialog.showSaveDialog` answers. */
  datatype DialogAnswer = Canceled | Chosen(path: Path)

  /** What `performSave` returns: nothing (dialog canceled), success with the path, or failure. */
  datatype SaveOutcome = NotSaved | Saved(filePath: Path) | SaveFailed(error: string)

  /** The project file extension. */
  const Extension: string := ".ive"

  /** `c.toLowerCase()` for the characters that can lower-case to a letter of ".ive". */
  function LowerAscii(c: char): char {
    if 'A' <= c <= 'Z' then (c as int + 32) as char else c
  }

  /** `p.toLowerCase().endsWith(".ive")`. */
  predicate HasExtension(p: Path) {
    && |p| >= 4
    && LowerAscii(p[|p| - 4]) == '.' && LowerAscii(p[|p| - 3]) == 'i'
    && LowerAscii(p[|p| - 2]) == 'v' && LowerAscii(p[|p| - 1]) == 'e'
  }

  /** The save rule: append ".ive" unless the path already ends with it in any letter case. */
  function WithExtension(p: Path): (q: Path)
    ensures HasExtension(q)
    ensures |q| >= |p| && q[..|p|] == p
    ensures HasExtension(p) <==> q == p
    ensures !HasExtension(p) ==> q == p + Extension
  {
    if HasExtension(p) then p
    else
      var q := p + Extension;
      assert q[|q| - 4..] == Extension;
      q
  }

  /** Applying the rule to its own result changes nothing: a suffix is never doubled. */
  lemma WithExtensionIdempotent(p: Path)
    ensures WithExtension(WithExtension(p)) == WithExtension(p)
  {
  }

  /** A path that differs from ".ive" only in letter case keeps its spelling. */
  lemma UpperCaseExtensionKept(stem: Path)
    ensures WithExtension(stem + ".IVE") == stem + ".IVE"
    ensures WithExtension(stem + ".iVe") == stem + ".iVe"
  {
    var p, q := stem + ".IVE", stem + ".iVe";
    assert p[|p| - 4..] == ".IVE" && q[|q| - 4..] == ".iVe";
    assert HasExtension(p) && HasExtension(q);
  }

  /** `!filePath || forceDialog`: the dialog opens without a current path, or for "save as". */
  predicate NeedsDialog(current: Option<Path>, forceDialog: bool) {
    current.None? || current.value == "" || forceDialog
  }

  /** The main process's save state: the current file path and the filesystem it writes to. */
  class Session {
    var currentFilePath: Option<Path>
    var fs: Fs

    constructor (fs: Fs)
      ensures currentFilePath == None && this.fs == fs
    {
      currentFilePath := None;
      this.fs := fs;
    }

    /** `createNewFile`: forgets the current path, so the next save asks for one. */
    method NewFile()
      modifies this
      ensures currentFilePath == None && fs == old(fs)
    {
      currentFilePath := None;
    }

    /**
     * `performSave(data, forceDialog)`, with `answer` what the dialog answers if it opens.
     * A canceled dialog changes nothing; otherwise the data is written to the chosen (or
     * current) path with the extension rule applied, and only a write that succeeds makes
     * that path current.
     */
    method PerformSave(data: string, forceDialog: bool, answer: DialogAnswer) returns (r: SaveOutcome)
      modifies this
      ensures NeedsDialog(old(currentFilePath), forceDialog) && answer.Canceled? ==>
        r == NotSaved && currentFilePath == old(currentFilePath) && fs == old(fs)
      ensures !(NeedsDialog(old(currentFilePath), forceDialog) && answer.Canceled?) ==>
        var target := WithExtension(if NeedsDialog(old(currentFilePath), forceDialog) then answer.path
                                    else old(currentFilePath).value);
        match WriteFile(old(fs), target, ProjectJson(data))
        case Success(fs') => r == Saved(target) && currentFilePath == Some(target) && fs == fs'
        case Failure(e) => r == SaveFailed(e) && currentFilePath == old(currentFilePath) && fs == old(fs)
      ensures r.Saved? ==> HasExtension(r.filePath) && currentFilePath == Some(r.filePath)
    {
      var filePath: Path;
      if NeedsDialog(currentFilePath, forceDialog) {
        match answer
        case Canceled => { return NotSaved; }
        case Chosen(selected) => { filePath := selected; }
      } else {
        filePath := currentFilePath.value;
      }

      filePath := WithExtension(filePath);

      match WriteFile(fs, filePath, ProjectJson(data))
      case Failure(e) => { return SaveFailed(e); }
      case Success(f) => { fs := f; }

      currentFilePath := Some(filePath);
      return Saved(filePath);
    }
  }
}
