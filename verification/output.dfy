/** What a run of the program produces instead of printing: the requests
    it sent, the records it printed in order, and the settings it wrote. */
module Output {
  import opened Values
  import opened Api

  /** An exception that escapes to the top level. */
  datatype Fault =
    | ConfigDoesNotExist   // the settings file is absent
    | ConfigInvalid        // the settings file is not valid JSON
    | SettingsNotLoaded    // a method called on the `False` that load_settings returned
    | NoStatusHeader       // `res.headers['status']` with no such header
    | NoArticleList        // `res.json.list` on a missing or listless body

  /** One line of the `limit` report. */
  datatype LimitLine = LimitLine(text: string, value: string)

  datatype Record =
    | MissingSettings(keys: seq<string>)   // "Missing required settings: ..."
    | Crash(fault: Fault)
    | AddFailed                          // "Unable to add url"
    | Status(line: string)               // the remote status line
    | Articles(items: seq<Article>)      // one line per article, in this order
    | PageText                           // the readable rendering of a page
    | Limits(lines: seq<LimitLine>)
    | SettingsShown(values: map<string, string>)
    | Usage                              // the settings command's help text

  datatype Outcome = Outcome(requests: seq<Request>, output: seq<Record>, written: Option<map<string, string>>)
}
