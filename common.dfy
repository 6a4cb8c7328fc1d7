/** Values shared by every page: optional values, the request environment,
    statement failures and what a request hands back to the browser. */
module Common {

  datatype Option<+T> = None | Some(value: T)

  /** Time stamps (NOW(), CURRENT_TIMESTAMP) are opaque environment values. */
  type Timestamp = int

  /** Which quote characters PHP's default htmlspecialchars flags escape:
      ENT_COMPAT (double quotes only, PHP before 8.1) or ENT_QUOTES (PHP 8.1 on). */
  datatype QuoteMode = EntCompat | EntQuotes

  /** The parts of a request that come from the environment rather than the form. */
  datatype Env = Env(now: Timestamp, ip: string, quotes: QuoteMode)

  /** How a write statement of a request fails, if at all. Statements are numbered
      from 1 in the order the page executes them. `Throws(k)`: statement k raises
      a mysqli exception; `ReturnsFalse(k)`: statement k reports failure through its
      return value and has no effect, and the script goes on. */
  datatype Fault = NoFault | Throws(stmt: nat) | ReturnsFalse(stmt: nat)
  {
    /** Inside begin_transaction/commit with a rollback in the catch block of an
        n-statement transaction: does the effect of statement k survive? */
    predicate Commits(n: nat, k: nat) {
      !(Throws? && 1 <= stmt <= n) && this != ReturnsFalse(k)
    }

    /** Outside any transaction: does the effect of statement k survive? A throw
        at statement j stops the script, so statements from j on never take effect. */
    predicate Persists(k: nat) {
      !(Throws? && 1 <= stmt <= k) && this != ReturnsFalse(k)
    }

    /** Does a statement among the first n throw (so the request dies)? */
    predicate Aborts(n: nat) {
      Throws? && 1 <= stmt <= n
    }
  }

  /** What a request produces: a rendered page with an optional error or success
      message, a redirect, or a fatal error (an exception re-thrown to PHP). */
  datatype Response =
    | Shown
    | ShownError(error: string)
    | ShownSuccess(success: string)
    | Redirect(location: string)
    | Fatal

  const LoginUrl := "login.php"
  const DashboardUrl := "dashboard.php"
}
