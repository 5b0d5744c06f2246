/** An optional value: `None` stands for the JavaScript results that are not
    numbers (`undefined` or `NaN`), `Some` for a numeric result. */
module Options {

  datatype Option<+T> = None | Some(value: T)
}
