/** The one table shape every parser converges on, and the relation records. */
module Tables {

  /** Header of every one-column fallback table. */
  const Content: string := "Conteúdo"

  /** A normalised table: `{name, headers, rows}`. Rows may be ragged. */
  datatype Table = Table(name: string, headers: seq<string>, rows: seq<seq<string>>)

  /** What a parser produces before the coordinator attaches the file name: `{headers, rows}`. */
  datatype Grid = Grid(headers: seq<string>, rows: seq<seq<string>>)

  /** The one-column table whose single row is `message`. */
  function Notice(message: string): (g: Grid)
    ensures g.headers == [Content] && |g.rows| == 1 && g.rows[0] == [message]
  {
    Grid([Content], [[message]])
  }

  /** An auto-discovered relation: `{column, files}`. */
  datatype Relation = Relation(column: string, files: seq<string>)
}
