/** The syntax tree the lexer and syntax builder hand to the semantic builder.
    Only the fields the semantic builder and the formatter read are kept. */
module Syntax {

  /** A place in the file; the zero position stands for the file as a whole. */
  datatype Position = Position(line: int, column: int)

  const NoPosition := Position(0, 0)

  /** Comment tokens attached to a statement: the lines before it and the
      comments trailing on its own line, each in source order. */
  datatype Comments = Comments(before: seq<string>, suffix: seq<string>)

  /** One statement: its tokens (the verb first at top level, without the
      verb inside a block), where it starts, and its comments. */
  datatype Line = Line(comments: Comments, start: Position, token: seq<string>)

  /** A top-level statement: a single line, or a `verb ( ... )` block of lines. */
  datatype Stmt =
    | LineStmt(line: Line)
    | BlockStmt(comments: Comments, start: Position, token: seq<string>, lines: seq<Line>)

  /** The whole file: its name and its statements in order. */
  datatype FileSyntax = FileSyntax(name: string, stmt: seq<Stmt>)

  /** Every statement has at least its verb token, as the syntax builder guarantees
      and as the semantic builder assumes when it reads token 0. */
  predicate WellFormed(fs: FileSyntax) {
    forall i :: 0 <= i < |fs.stmt| ==> HasVerb(fs.stmt[i])
  }

  predicate HasVerb(s: Stmt) {
    match s
    case LineStmt(l) => |l.token| > 0
    case BlockStmt(_, _, token, _) => |token| > 0
  }
}
