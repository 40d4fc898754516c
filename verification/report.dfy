/**
 * The diagnostic the error wrapper `log_on_error` sends to the administrator:
 * the error text, the traceback and the triggering event, in HTML `<code>`
 * blocks, cut to the platform's maximum message length.
 */
module Report {

  /** Maximum length of one message on the messaging platform, in characters. */
  const MaxMessageLength: nat := 4096

  /** The opening of every report, up to where the error text begins. */
  const Header: string := "Avatar bot error:\n<code>"

  /** Python's slice `s[:limit]`. */
  function Truncate(s: string, limit: nat): (r: string)
    ensures r <= s
    ensures |r| == if |s| <= limit then |s| else limit
  {
    if |s| <= limit then s else s[..limit]
  }

  /** The truncated text is the longest prefix of the original that fits the limit. */
  lemma TruncateIsLongestPrefix(s: string, limit: nat, t: string)
    requires t <= s && |t| <= limit
    ensures t <= Truncate(s, limit)
  {
  }

  /** Number of characters of fixed text and markup around the three fields of a report. */
  const ReportMarkup: nat := 78

  /**
   * Characters between the end of the error text and the start of the
   * traceback: the error's closing tag, a blank line, the "Traceback:" line
   * and the traceback's opening tag.
   */
  const TracebackGap: nat := 26

  /**
   * The report before it is cut: the header and the error in its own `<code>`
   * block come first, the traceback follows at a fixed distance, the event in
   * its `<code>` block comes last, and apart from the three fields there are
   * exactly `ReportMarkup` characters.
   */
  function FullReport(error: string, traceback: string, event: string): (r: string)
    ensures Header + error + "</code>" <= r
    ensures |r| == |error| + |traceback| + |event| + ReportMarkup
    ensures |Header| + |error| + TracebackGap + |traceback| <= |r| &&
      r[|Header| + |error| + TracebackGap .. |Header| + |error| + TracebackGap + |traceback|] == traceback
    ensures |r| >= |event| + 13 && r[|r| - 13 - |event|..] == "<code>" + event + "</code>"
  {
    Header + error + "</code>\n\n"
    + "Traceback:\n"
    + "<code>" + traceback + "</code>\n"
    + "Event:\n"
    + "<code>" + event + "</code>"
  }

  /**
   * The report as sent: never longer than one message, a prefix of the full
   * report, the full report itself when that fits and its first
   * `MaxMessageLength` characters when it does not, always starting with the
   * header, and carrying the whole error text whenever header and error fit.
   */
  function AdminReport(error: string, traceback: string, event: string): (r: string)
    ensures |r| <= MaxMessageLength
    ensures r <= FullReport(error, traceback, event)
    ensures |FullReport(error, traceback, event)| <= MaxMessageLength ==> r == FullReport(error, traceback, event)
    // a report that is too long keeps exactly one message's worth of it
    ensures |FullReport(error, traceback, event)| > MaxMessageLength ==> |r| == MaxMessageLength
    ensures Header <= r
    ensures |Header + error| <= MaxMessageLength ==> Header + error <= r
    // the report is cut exactly when the three fields exceed what the markup leaves
    ensures r == FullReport(error, traceback, event) <==>
      |error| + |traceback| + |event| <= MaxMessageLength - ReportMarkup
  {
    var full := FullReport(error, traceback, event);
    assert (Header + error) <= full by {
      assert full == (Header + error) + full[|Header + error|..];
    }
    PrefixOfPrefix(Header, Header + error, full);
    TruncateIsLongestPrefix(full, MaxMessageLength, Header);
    assert |Header + error| <= MaxMessageLength ==> Header + error <= Truncate(full, MaxMessageLength) by {
      if |Header + error| <= MaxMessageLength {
        TruncateIsLongestPrefix(full, MaxMessageLength, Header + error);
      }
    }
    Truncate(full, MaxMessageLength)
  }

  /**
   * The contract of `AdminReport` leaves no choice: any prefix of the full
   * report with its length is the report that is sent.
   */
  lemma AdminReportDetermined(error: string, traceback: string, event: string, s: string)
    requires s <= FullReport(error, traceback, event)
    requires |s| == if |FullReport(error, traceback, event)| <= MaxMessageLength
      then |FullReport(error, traceback, event)| else MaxMessageLength
    ensures s == AdminReport(error, traceback, event)
  {
    var full := FullReport(error, traceback, event);
    var r := AdminReport(error, traceback, event);
    assert s == full[..|s|] && r == full[..|r|];
  }

  lemma PrefixOfPrefix(a: string, b: string, c: string)
    requires a <= b && b <= c
    ensures a <= c
  {
  }
}
