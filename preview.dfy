/**
  The preview of the tables: one block per table (the pasted JSON first, then
  the uploaded files), showing the first five rows and a notice with the total
  when there are more.
 */
module Preview {
  import opened Wrappers
  import opened Text
  import opened Tables
  import Extension

  /** Rows shown per table. */
  const PreviewRows: nat := 5

  /** What one block shows. */
  datatype Block = Block(
    name: string,
    ext: string,
    columns: nat,
    total: nat,
    visible: seq<seq<string>>,
    notice: Option<string>)

  /** `… mostrando 5 de N linhas`. */
  function NoticeText(total: nat): (r: string)
  {
    "… mostrando " + NatToString(PreviewRows) + " de " + NatToString(total) + " linhas"
  }

  /** One block: the header line counts, `rows.slice(0, 5)` and the notice when `totalRows > 5`. */
  function Project(t: Table): (b: Block)
  {
    var n := if |t.rows| < PreviewRows then |t.rows| else PreviewRows;
    Block(t.name, Extension.GetExtension(t.name), |t.headers|, |t.rows|, t.rows[..n],
          if |t.rows| > PreviewRows then Some(NoticeText(|t.rows|)) else None)
  }

  /**
    A block shows the first min(5, |rows|) rows of its table unchanged, counts
    all of them, and carries the notice exactly when some rows are hidden.
   */
  lemma ProjectSpec(t: Table)
    ensures var b := Project(t);
      && |b.visible| == (if |t.rows| < PreviewRows then |t.rows| else PreviewRows)
      && (forall i :: 0 <= i < |b.visible| ==> b.visible[i] == t.rows[i])
      && b.total == |t.rows|
      && (b.notice.Some? <==> |b.visible| < b.total)
      && (b.notice.Some? ==> b.notice.value == NoticeText(b.total))
  {
  }

  /** `allPreviewBlocks`: the pasted table first, then the uploaded ones. */
  function Blocks(previewJson: seq<Table>, filesData: seq<Table>): (bs: seq<Block>)
    ensures |bs| == |previewJson| + |filesData|
    ensures forall i :: 0 <= i < |previewJson| ==> bs[i] == Project(previewJson[i])
    ensures forall i :: 0 <= i < |filesData| ==> bs[|previewJson| + i] == Project(filesData[i])
  {
    ProjectAll(previewJson + filesData)
  }

  function ProjectAll(ts: seq<Table>): (bs: seq<Block>)
    ensures |bs| == |ts|
    ensures forall i :: 0 <= i < |ts| ==> bs[i] == Project(ts[i])
  {
    if ts == [] then []
    else
      var rest := ProjectAll(ts[1..]);
      assert forall i :: 1 <= i < |ts| ==> rest[i - 1] == Project(ts[i]);
      [Project(ts[0])] + rest
  }
}
