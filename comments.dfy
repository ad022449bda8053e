/**
 * The comments handed over by the JavaScript parser: each one is a line comment
 * or a block comment, with its body text (delimiters removed) and the line
 * and (0-based) column where it starts.
 */
module Comments {

  datatype Kind = Line | Block

  datatype Comment = Comment(kind: Kind, value: string, line: int, column: int)

  /** `b` continues the run of line comments that ends with `a`. */
  predicate Joins(a: Comment, b: Comment) {
    a.kind == Line && b.kind == Line && a.line + 1 == b.line
  }
}
