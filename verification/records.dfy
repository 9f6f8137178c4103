/** The rows of the dataset file and the labels attached to them. */
module Records {
  import opened Wrappers

  /** A row's `input` value, kept opaque: the tool copies it and never looks inside. */
  type Text = string

  /**
   * One label triple of a row's output. Each part is the submitted form field
   * of that name, or `None` when the form did not carry it.
   */
  datatype Label = Label(aspect: Option<string>, polarity: Option<string>, emotion: Option<string>)

  /**
   * One line of the dataset file: its `input` (absent when the decoded line has
   * no such key) and its `output` labels (absent until the row is saved).
   */
  datatype Record = Record(input: Option<Text>, output: Option<seq<Label>>)
}
