/** The shape shared by the string-to-enum getters: each returns a bool and,
    on success only, writes one out-parameter. The out-parameter is modelled
    as a value passed in and handed back, unchanged on failure. */
module Getter {
  datatype Outcome<T> = Outcome(ok: bool, value: T)
}
