/**
 * The per-row comparison of `ProcessBatchData`: look the employee up in the
 * directory, read the manager's identifier out of the `manager` attribute,
 * and when it differs (ignoring case) from the recorded one, write the
 * directory's manager id and display name into the row together with a verdict
 * on the recorded manager name.
 */
module Reconcile {
  import opened Wrappers
  import opened Text
  import opened DistinguishedName

  /** The `ManagerNameComparisonResult` column; `Unset` is the empty cell of the new column. */
  datatype Verdict = Unset | Correct | Wrong

  /** One spreadsheet row, with the columns the comparison reads and writes. */
  datatype Row = Row(
    employeeId: string,
    managerId: string,
    managerName: string,
    managerIdUpdated: string,
    managerNameUpdated: string,
    verdict: Verdict)

  /** What the directory holds for a user: the `manager` attribute (a DN) and the display name. */
  datatype Principal = Principal(manager: Option<string>, displayName: Option<string>)

  /** The directory, searched by employee id; a missing key is a search that found nobody. */
  type Directory = map<string, Principal>

  /**
   * How line 121 obtains the id it compares: `AsWritten` splits the already
   * extracted id again, as the program does; `ExtractOnce` uses it as it is.
   */
  datatype ExtractionRule = AsWritten | ExtractOnce

  /** `FindUserByCustomAttribute(context, "EmployeeId", id)`. */
  function FindUser(dir: Directory, employeeId: string): Option<Principal> {
    if employeeId in dir then Some(dir[employeeId]) else None
  }

  /** `GetManagerNameFromAD`: the manager's display name, or "" when nobody or no name is found. */
  function GetManagerName(managerId: string, dir: Directory): (name: string)
    ensures managerId !in dir || dir[managerId].displayName.None? ==> name == ""
    ensures managerId in dir && dir[managerId].displayName.Some? ==>
              name == dir[managerId].displayName.value
  {
    match FindUser(dir, managerId)
    case None => ""
    case Some(manager) => manager.displayName.GetOr("")
  }

  /** The id compared at line 122, obtained from the id of line 116 under `rule`. */
  function ComparedId(managerIdAD: string, rule: ExtractionRule): Result<string> {
    match rule
    case AsWritten => FirstRdnValue(managerIdAD)
    case ExtractOnce => Success(managerIdAD)
  }

  /** Lines 122-128: update the row only when the ids differ ignoring case. */
  function Compare(row: Row, extracted: string, nameAD: string): Row {
    if EqualsIgnoreCase(row.managerId, extracted) then row
    else row.(managerIdUpdated := extracted,
              managerNameUpdated := nameAD,
              verdict := if EqualsIgnoreCase(row.managerName, nameAD) then Correct else Wrong)
  }

  /** The `try` block of lines 109-129: the row it leaves, or the exception that ends it. */
  function ReconcileRow(row: Row, dir: Directory, rule: ExtractionRule): (r: Result<Row>)
    ensures r.Success? ==>
              r.value.employeeId == row.employeeId && r.value.managerId == row.managerId &&
              r.value.managerName == row.managerName
    ensures row.employeeId !in dir ==> r == Success(row)
    ensures row.employeeId in dir && GetManagerId(dir[row.employeeId].manager) == Success("") ==>
              r == Success(row)
    ensures r.Failure? <==>
              row.employeeId in dir &&
              match GetManagerId(dir[row.employeeId].manager)
              case Failure(_) => true
              case Success(id) => id != "" && ComparedId(id, rule).Failure?
    ensures r.Success? && r.value != row ==>
              r.value.verdict != Unset && !EqualsIgnoreCase(row.managerId, r.value.managerIdUpdated)
  {
    match FindUser(dir, row.employeeId)
    case None => Success(row)
    case Some(user) =>
      match GetManagerId(user.manager)
      case Failure(f) => Failure(f)
      case Success(managerIdAD) =>
        if managerIdAD == "" then Success(row)
        else
          match ComparedId(managerIdAD, rule)
          case Failure(f) => Failure(f)
          case Success(extracted) => Success(Compare(row, extracted, GetManagerName(managerIdAD, dir)))
  }

  /** The row after one pass of the loop: an exception is caught (line 132) and leaves it as it was. */
  function NextRow(row: Row, dir: Directory, rule: ExtractionRule): Row {
    match ReconcileRow(row, dir, rule)
    case Success(r) => r
    case Failure(_) => row
  }

  /** The rows of a batch after the whole loop: each row by itself, in place. */
  function ProcessRows(rows: seq<Row>, dir: Directory, rule: ExtractionRule): seq<Row> {
    seq(|rows|, i requires 0 <= i < |rows| => NextRow(rows[i], dir, rule))
  }

  /**
   * With the directory's manager id differing from the recorded one, the row
   * gets that id, the manager's display name ("" if the manager is not found),
   * and `Correct` exactly when the recorded name equals that display name
   * ignoring case, else `Wrong`.
   */
  lemma MismatchUpdates(row: Row, dir: Directory, managerId: string)
    requires row.employeeId in dir
    requires GetManagerId(dir[row.employeeId].manager) == Success(managerId) && managerId != ""
    requires !EqualsIgnoreCase(row.managerId, managerId)
    ensures var r := NextRow(row, dir, ExtractOnce);
            && r.managerIdUpdated == managerId
            && r.managerNameUpdated == GetManagerName(managerId, dir)
            && (r.verdict == Correct <==> EqualsIgnoreCase(row.managerName, GetManagerName(managerId, dir)))
            && (r.verdict == Wrong <==> !EqualsIgnoreCase(row.managerName, GetManagerName(managerId, dir)))
            && r == row.(managerIdUpdated := r.managerIdUpdated,
                         managerNameUpdated := r.managerNameUpdated,
                         verdict := r.verdict)
  {
  }

  /** A compared id that already matches, ignoring case, leaves every field of the row as it was. */
  lemma MatchLeavesRow(row: Row, dir: Directory, rule: ExtractionRule, managerId: string, compared: string)
    requires row.employeeId in dir
    requires GetManagerId(dir[row.employeeId].manager) == Success(managerId)
    requires ComparedId(managerId, rule) == Success(compared)
    requires EqualsIgnoreCase(row.managerId, compared)
    ensures NextRow(row, dir, rule) == row
  {
  }

  /**
   * As written, the loop never changes a row: a found user with a non-empty
   * manager id always reaches the second split at line 121, which throws.
   */
  lemma AsWrittenLeavesRow(row: Row, dir: Directory)
    ensures NextRow(row, dir, AsWritten) == row
    ensures row.employeeId in dir ==>
              match GetManagerId(dir[row.employeeId].manager)
              case Failure(_) => ReconcileRow(row, dir, AsWritten).Failure?
              case Success(id) => id != "" ==> ReconcileRow(row, dir, AsWritten) == Failure(IndexOutOfRange)
  {
    if row.employeeId in dir {
      var manager := dir[row.employeeId].manager;
      if manager.Some? && manager.value != "" && FirstRdnValue(manager.value).Success? {
        ReExtractionFails(manager.value);
      }
    }
  }

  /** A second pass over an already processed row, with the directory unchanged, changes nothing. */
  lemma NextRowIdempotent(row: Row, dir: Directory, rule: ExtractionRule)
    ensures NextRow(NextRow(row, dir, rule), dir, rule) == NextRow(row, dir, rule)
  {
    if rule == AsWritten {
      AsWrittenLeavesRow(row, dir);
    }
  }

  lemma ProcessRowsAsWritten(rows: seq<Row>, dir: Directory)
    ensures ProcessRows(rows, dir, AsWritten) == rows
  {
    forall i | 0 <= i < |rows| ensures ProcessRows(rows, dir, AsWritten)[i] == rows[i] {
      AsWrittenLeavesRow(rows[i], dir);
    }
  }

  /** Processing rows one by one commutes with concatenation: rows do not affect each other. */
  lemma ProcessRowsAppend(a: seq<Row>, b: seq<Row>, dir: Directory, rule: ExtractionRule)
    ensures ProcessRows(a + b, dir, rule) == ProcessRows(a, dir, rule) + ProcessRows(b, dir, rule)
  {
  }

  /**
   * Lines 107-136 for one row: the statements of the `try` block, with an
   * exception ending them early and leaving the row as it was. `updated` says
   * whether the row's cells are written.
   */
  method ProcessRow(row: Row, dir: Directory, rule: ExtractionRule) returns (next: Row, updated: bool)
    ensures next == NextRow(row, dir, rule)
    ensures !updated ==> next == row
  {
    next, updated := row, false;
    var user := FindUser(dir, row.employeeId);
    if user.Some? {
      var managerIdAD := GetManagerId(user.value.manager);
      // a failed extraction is the exception caught at line 132
      if managerIdAD.Success? {
        var managerNameAD := GetManagerName(managerIdAD.value, dir);
        if managerIdAD.value != "" {
          var extracted := ComparedId(managerIdAD.value, rule);
          if extracted.Success? && !EqualsIgnoreCase(row.managerId, extracted.value) {
            next := row.(managerIdUpdated := extracted.value,
                         managerNameUpdated := managerNameAD,
                         verdict := if EqualsIgnoreCase(row.managerName, managerNameAD)
                                    then Correct else Wrong);
            updated := true;
          }
        }
      }
    }
  }

  /**
   * The loop of `ProcessBatchData` over the rows of one batch table, in place;
   * each row is written only from its own values and the directory.
   */
  method ProcessBatch(batch: array<Row>, dir: Directory, rule: ExtractionRule)
    modifies batch
    ensures batch[..] == ProcessRows(old(batch[..]), dir, rule)
  {
    for i := 0 to batch.Length
      invariant forall k :: 0 <= k < i ==> batch[k] == NextRow(old(batch[k]), dir, rule)
      invariant forall k :: i <= k < batch.Length ==> batch[k] == old(batch[k])
    {
      var next, updated := ProcessRow(batch[i], dir, rule);
      if updated {
        batch[i] := next;
      }
    }
    assert |batch[..]| == |ProcessRows(old(batch[..]), dir, rule)|;
  }
}
