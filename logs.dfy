/** The durable logs the crawler and the fetcher append to: a text file opened in
    append mode, one entry per line. What was in the file before the run stays. */
module Logs {

  class LineLog {
    var lines: seq<string>

    /** A log file that already holds `existing`, possibly from an earlier run. */
    constructor (existing: seq<string>)
      ensures lines == existing
    {
      lines := existing;
    }

    /** `f.write(line + "\n")`. */
    method Append(line: string)
      modifies this
      ensures lines == old(lines) + [line]
    {
      lines := lines + [line];
    }
  }
}
