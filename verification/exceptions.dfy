/** The Python exceptions the downloader can raise on its data (not on I/O). */
module Exceptions {

  datatype Crash =
    /** `AttributeError`: `.group` called on the `None` returned by a regex search that failed. */
    | NoMatch(pattern: string)
    /** `IndexError`: `[0]` taken of a metadata list that is present but empty. */
    | EmptyList(key: string)
    /** `KeyError`: a page that has `items` but lacks `endIndex` or `totalItems`. */
    | MissingKey(key: string)
    /** `IndexError`: `[1]` taken of the first query segment split on `?` when it has no `?`. */
    | NoQueryMark
}
