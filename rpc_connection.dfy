/** The C++ connection state shared by client and server: an enabled bit
    that only ever goes from true to false, an error history that only ever
    grows, the input stream's end-of-file state and the count of header
    parsers active on the stream. */
module RpcConnection {
  import opened Wrappers

  const ErrorSeparator: string := " :: "

  /** The error text after `set_error(e)`: the first error as given, each
      later one appended after the separator. */
  function JoinError(prev: Option<string>, e: string): (r: string)
    ensures prev.None? ==> r == e
    ensures prev.Some? ==> |r| == |prev.value| + |ErrorSeparator| + |e|
    ensures prev.Some? ==> r[..|prev.value|] == prev.value && r[|r| - |e|..] == e
  {
    match prev
    case None => e
    case Some(prior) =>
      var r := prior + ErrorSeparator + e;
      assert r[..|prior|] == prior;
      assert r[|r| - |e|..] == e;
      r
  }

  /** The error state after `set_error` was called with each of `es` in turn. */
  function ErrorAfter(prev: Option<string>, es: seq<string>): (r: Option<string>)
    ensures |es| > 0 ==> r.Some?
    ensures |es| == 0 ==> r == prev
  {
    if |es| == 0 then prev else Some(JoinError(ErrorAfter(prev, es[..|es| - 1]), es[|es| - 1]))
  }

  /** The history is kept: the error text at any point is a prefix of the
      error text at every later point. */
  lemma {:induction false} ErrorHistoryKept(prev: Option<string>, es: seq<string>, k: nat)
    requires k <= |es| && ErrorAfter(prev, es[..k]).Some?
    ensures ErrorAfter(prev, es).Some?
    ensures ErrorAfter(prev, es[..k]).value <= ErrorAfter(prev, es).value
    decreases |es| - k
  {
    if k == |es| {
      assert es[..k] == es;
    } else {
      var front := es[..|es| - 1];
      assert front[..k] == es[..k];
      ErrorHistoryKept(prev, front, k);
      var before := ErrorAfter(prev, front).value;
      var after := ErrorAfter(prev, es).value;
      assert after == JoinError(Some(before), es[|es| - 1]);
      assert after[..|before|] == before;
    }
  }

  class Connection {
    var enabled: bool
    var error: Option<string>
    /** `istream.eof()`: set by the stream when the peer closes. */
    var eof: bool
    /** `istream_active_parser`. */
    var istreamActiveParser: nat

    constructor ()
      ensures enabled && error == None && !eof && istreamActiveParser == 0
    {
      enabled, error, eof, istreamActiveParser := true, None, false, 0;
    }

    method Disable()
      modifies this`enabled
      ensures !enabled
    {
      enabled := false;
    }

    function IsEnabled(): bool
      reads this
    {
      enabled
    }

    function HasError(): (r: bool)
      reads this
      ensures r <==> error.Some?
    {
      error.Some?
    }

    function IsValid(): (r: bool)
      reads this
      ensures r <==> enabled && error.None? && !eof
    {
      enabled && !HasError() && !eof
    }

    method SetError(e: string)
      modifies this`error
      ensures error == Some(JoinError(old(error), e))
      ensures !IsValid()
    {
      if error.None? {
        error := Some(e);
        return;
      }
      error := Some(error.value + ErrorSeparator + e);
    }

    function GetError(): (r: string)
      reads this
      ensures error.None? ==> r == ""
      ensures error.Some? ==> r == error.value
    {
      if error.None? then "" else error.value
    }
  }
}
