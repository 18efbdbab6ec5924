/**
 * The per-session state of the app: the working table `df` and the snapshot
 * `original_df` taken at load time, with the load, reset and apply transitions
 * of the sidebar.
 */
module Session {
  import opened Wrappers
  import opened Tables
  import opened Cleaning

  /**
   * What the file uploader hands one script run: an identity for the upload
   * (which file, read with which encoding) and the outcome of `pd.read_csv`
   * on it, a table or the message of the exception it raised.
   */
  datatype Upload = Upload(key: nat, parsed: Result<Table, string>)

  /** The message the apply button leads to. */
  datatype ApplyReport = NotLoaded | FillDone | RowsDeleted(count: nat) | Raised(absent: seq<string>)

  /** `st.session_state` restricted to the two dataset slots. */
  class DatasetSession {
    var current: Option<Table>   // st.session_state.df
    var original: Option<Table>  // st.session_state.original_df
    var loadedKey: Option<nat>   // the upload the slots were last loaded from (corrected run only)

    /** Both slots are filled together, hold well-formed tables and agree on the columns. */
    ghost predicate Valid()
      reads this
    {
      (current.Some? <==> original.Some?) &&
      (current.Some? ==>
        WellFormed(current.value) && WellFormed(original.value) &&
        SameSchema(current.value, original.value))
    }

    /** The first run of a session: both slots start empty. */
    constructor ()
      ensures Valid()
      ensures current == None && original == None && loadedKey == None
    {
      current := None;
      original := None;
      loadedKey := None;
    }

    /**
     * A parsed upload fills both slots with the same table (as values, so the
     * two are independent copies); a failed parse leaves both slots as they
     * were and reports the cause.
     */
    method Load(parsed: Result<Table, string>) returns (error: Option<string>)
      requires Valid()
      requires parsed.Success? ==> WellFormed(parsed.value)
      modifies this`current, this`original
      ensures Valid()
      ensures parsed.Success? ==>
        current == Some(parsed.value) && original == Some(parsed.value) && error == None
      ensures parsed.Failure? ==>
        current == old(current) && original == old(original) && error == Some(parsed.error)
    {
      match parsed {
        case Success(df) =>
          current := Some(df);
          original := Some(df);
          error := None;
        case Failure(e) =>
          error := Some(e);
      }
    }

    /**
     * The reset button, shown only while a dataset is loaded: the working
     * table becomes the snapshot again; the snapshot is untouched.
     */
    method Reset() returns (done: bool)
      requires Valid()
      modifies this`current
      ensures Valid()
      ensures done == old(current).Some?
      ensures original == old(original)
      ensures done ==> current == original
      ensures !done ==> current == old(current)
    {
      done := current.Some?;
      if done {
        current := original;
      }
    }

    /**
     * The apply button: run the chosen command on a copy of the working table
     * and commit the copy.  A row drop over an absent label raises before the
     * commit, leaving the slots as they were; the snapshot is never touched.
     */
    method Apply(m: Method, selected: seq<string>, st: Statistics) returns (report: ApplyReport)
      requires Valid()
      modifies this`current
      ensures Valid()
      ensures original == old(original)
      ensures old(current).None? ==> report == NotLoaded && current == old(current)
      ensures old(current).Some? && m != DropRows ==>
        var df := old(current).value;
        report == FillDone && current == Some(FillAll(df, m, FillColumnsOf(df, selected), st))
      ensures old(current).Some? && m == DropRows ==>
        var df := old(current).value;
        match DropNa(df, DropSubsetOf(df, selected)) {
          case Failure(absent) => report == Raised(absent) && current == old(current)
          case Success(kept) => report == RowsDeleted(df.rows - kept.rows) && current == Some(kept)
        }
    {
      if current.None? {
        report := NotLoaded;
        return;
      }
      var df := current.value;
      var outcome := Clean(df, m, selected, st);
      match outcome {
        case Failure(absent) =>
          report := Raised(absent);
        case Success(cleaned) =>
          SameSchemaTransitive(cleaned.table, df, original.value);
          current := Some(cleaned.table);
          report := if cleaned.Filled? then FillDone else RowsDeleted(cleaned.deleted);
      }
    }

    /**
     * The upload block as written: every script run that finds a file in the
     * uploader parses it again and reloads both slots from it.
     */
    method RunAsWritten(upload: Option<Upload>) returns (error: Option<string>)
      requires Valid()
      requires upload.Some? && upload.value.parsed.Success? ==> WellFormed(upload.value.parsed.value)
      modifies this`current, this`original
      ensures Valid()
      ensures upload.None? ==> current == old(current) && original == old(original) && error == None
      ensures upload.Some? && upload.value.parsed.Success? ==>
        current == Some(upload.value.parsed.value) && original == current && error == None
      ensures upload.Some? && upload.value.parsed.Failure? ==>
        current == old(current) && original == old(original) && error == Some(upload.value.parsed.error)
    {
      error := None;
      if upload.Some? {
        error := Load(upload.value.parsed);
      }
    }

    /**
     * The upload block as intended: a script run reloads the slots only for an
     * upload it has not loaded yet, so the cleaning committed on earlier runs
     * survives the reruns that follow it.
     */
    method Run(upload: Option<Upload>) returns (error: Option<string>)
      requires Valid()
      requires upload.Some? && upload.value.parsed.Success? ==> WellFormed(upload.value.parsed.value)
      modifies this
      ensures Valid()
      ensures upload.None? || old(loadedKey) == Some(upload.value.key) ==>
        current == old(current) && original == old(original) && loadedKey == old(loadedKey) && error == None
      ensures upload.Some? && old(loadedKey) != Some(upload.value.key) && upload.value.parsed.Success? ==>
        current == Some(upload.value.parsed.value) && original == current &&
        loadedKey == Some(upload.value.key) && error == None
      ensures upload.Some? && old(loadedKey) != Some(upload.value.key) && upload.value.parsed.Failure? ==>
        current == old(current) && original == old(original) && loadedKey == old(loadedKey) &&
        error == Some(upload.value.parsed.error)
    {
      error := None;
      if upload.Some? && loadedKey != Some(upload.value.key) {
        error := Load(upload.value.parsed);
        if error.None? {
          loadedKey := Some(upload.value.key);
        }
      }
    }
  }

  /** Statistics that never exist; enough for a zero fill. */
  function NoStatistics(): Statistics {
    Statistics(cells => None, cells => [])
  }

  /** A one-column upload whose only entry is missing. */
  function OneMissingAge(): Table {
    Table(1, [Column("age", Float64, [None])])
  }

  /**
   * As written: upload a file with a missing entry, zero-fill it, and let the
   * app rerun; the rerun parses the still-uploaded file again and the working
   * table is the raw file once more.
   */
  method RerunDiscardsCleaning() returns (session: DatasetSession, file: Table, cleaned: Table)
    ensures |file.columns| == |cleaned.columns| == 1
    ensures HasMissing(file.columns[0].cells) && !HasMissing(cleaned.columns[0].cells)
    ensures session.current == Some(file) && session.original == Some(file)
  {
    file := OneMissingAge();
    var upload := Some(Upload(0, Success(file)));
    session := new DatasetSession();
    var error := session.RunAsWritten(upload);
    var report := session.Apply(FillZero, [], NoStatistics());
    cleaned := session.current.value;
    assert NumericNames(file.columns) == ["age"];
    FillAllCompletes(file, FillZero, FillColumnsOf(file, []), NoStatistics(), 0);
    assert file.columns[0].cells[0].None?;
    error := session.RunAsWritten(upload);
  }

  /** Corrected: the same steps keep the zero-filled table across the rerun. */
  method RerunKeepsCleaning() returns (session: DatasetSession, file: Table, cleaned: Table)
    ensures |file.columns| == |cleaned.columns| == 1
    ensures HasMissing(file.columns[0].cells) && !HasMissing(cleaned.columns[0].cells)
    ensures session.current == Some(cleaned) && session.original == Some(file)
  {
    file := OneMissingAge();
    var upload := Some(Upload(0, Success(file)));
    session := new DatasetSession();
    var error := session.Run(upload);
    var report := session.Apply(FillZero, [], NoStatistics());
    cleaned := session.current.value;
    assert NumericNames(file.columns) == ["age"];
    FillAllCompletes(file, FillZero, FillColumnsOf(file, []), NoStatistics(), 0);
    assert file.columns[0].cells[0].None?;
    error := session.Run(upload);
  }
}
