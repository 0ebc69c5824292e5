/** The decoded content of one language file and the `Language` record that
    pairs it with its locale. */
module Trees {
  import opened PhpValues

  /** A decoded value: a scalar, or a PHP array with string keys kept in file order. */
  datatype Tree = Leaf(value: Scalar) | Node(entries: seq<Entry>)

  datatype Entry = Entry(key: string, child: Tree)

  /** One loaded language: its locale tag and the top-level entries of its file. */
  datatype Language = Language(locale: string, translations: seq<Entry>)
}
