// The error accumulator every component reports through (util/err.go; the
// same type is repeated in util/models.go). An `Err` is a prefix and a list
// of messages that only ever grows.
module Errs {

  /** A Go `error` as the compiler passes it around: nil, an `*Err` (its
    * prefix and messages at the time it is passed on), or any other error,
    * of which only its `Error()` text matters. */
  datatype ErrValue =
    | NoError
    | Accumulated(prefix: string, msgs: seq<string>)
    | Plain(text: string)

  /** `strings.Join`. */
  function Join(parts: seq<string>, sep: string): string
    decreases |parts|
  {
    if parts == [] then ""
    else if |parts| == 1 then parts[0]
    else parts[0] + sep + Join(parts[1..], sep)
  }

  /** Every message followed by a newline. */
  function Lines(msgs: seq<string>): string
    decreases |msgs|
  {
    if msgs == [] then "" else msgs[0] + "\n" + Lines(msgs[1..])
  }

  /** The text `(*Err).Error()` builds: the prefix and a colon, then every
    * message, then a lone newline, joined by newlines. */
  function ErrorText(prefix: string, msgs: seq<string>): string {
    Join([prefix + ":"] + msgs + ["\n"], "\n")
  }

  lemma {:induction false} JoinLines(msgs: seq<string>)
    ensures Join(msgs + ["\n"], "\n") == Lines(msgs) + "\n"
    decreases |msgs|
  {
    if msgs != [] {
      assert (msgs + ["\n"])[1..] == msgs[1..] + ["\n"];
      JoinLines(msgs[1..]);
    }
  }

  /** Error() reads as "prefix:", one line per message, then an empty line. */
  lemma ErrorTextLayout(prefix: string, msgs: seq<string>)
    ensures ErrorText(prefix, msgs) == prefix + ":\n" + Lines(msgs) + "\n"
  {
    assert ([prefix + ":"] + msgs + ["\n"])[1..] == msgs + ["\n"];
    JoinLines(msgs);
  }

  /** The messages `Merge(other)` appends. */
  function Merged(other: ErrValue): (r: seq<string>)
    ensures other.NoError? ==> r == []
    ensures other.Plain? ==> r == [other.text]
    ensures other.Accumulated? ==>
      |r| == |other.msgs| &&
      forall i :: 0 <= i < |r| ==> r[i] == other.prefix + ": " + other.msgs[i]
  {
    match other
    case NoError => []
    case Plain(text) => [text]
    case Accumulated(p, ms) => seq(|ms|, i requires 0 <= i < |ms| => p + ": " + ms[i])
  }

  class Err {
    var prefix: string
    var msgs: seq<string>

    constructor (prefix: string)
      ensures this.prefix == prefix && msgs == []
    {
      this.prefix := prefix;
      msgs := [];
    }

    /** Records one (already formatted) message after the earlier ones. */
    method Errorf(msg: string)
      modifies this
      ensures msgs == old(msgs) + [msg]
      ensures prefix == old(prefix)
    {
      msgs := msgs + [msg];
    }

    function Error(): (s: string)
      reads this
      ensures s == prefix + ":\n" + Lines(msgs) + "\n"
    {
      ErrorTextLayout(prefix, msgs);
      ErrorText(prefix, msgs)
    }

    predicate Empty()
      reads this
    {
      |msgs| == 0
    }

    /** Appends another error: each message of another `*Err` as
      * "<its prefix>: <msg>", in order; the text of any other error as one
      * message; nothing for nil. */
    method Merge(other: ErrValue)
      modifies this
      ensures msgs == old(msgs) + Merged(other)
      ensures prefix == old(prefix)
    {
      match other {
        case NoError =>
        case Plain(text) =>
          msgs := msgs + [text];
        case Accumulated(p, ms) =>
          var i := 0;
          while i < |ms|
            invariant 0 <= i <= |ms|
            invariant prefix == old(prefix)
            invariant msgs == old(msgs) + Merged(other)[..i]
          {
            Errorf(p + ": " + ms[i]);
            assert Merged(other)[..i + 1] == Merged(other)[..i] + [p + ": " + ms[i]];
            i := i + 1;
          }
          assert Merged(other)[..i] == Merged(other);
      }
    }

    /** nil when nothing was recorded, this `*Err` otherwise. */
    function OrNil(): (r: ErrValue)
      reads this
      ensures r == NoError <==> Empty()
      ensures r != NoError ==> r == Accumulated(prefix, msgs)
    {
      if Empty() then NoError else Accumulated(prefix, msgs)
    }
  }

  /** What an `*Err` built with `prefix` and given `msgs` hands back from
    * `OrNil()`, for the validators that build one and return at once. */
  function OrNilOf(prefix: string, msgs: seq<string>): (r: ErrValue)
    ensures r == NoError <==> msgs == []
    ensures r != NoError ==> r == Accumulated(prefix, msgs)
  {
    if msgs == [] then NoError else Accumulated(prefix, msgs)
  }

  /** Records each of `msgs`, in order, through `Errorf`: what a caller
    * does with the messages a validator reports. */
  method ErrorfEach(e: Err, msgs: seq<string>)
    modifies e
    ensures e.msgs == old(e.msgs) + msgs
    ensures e.prefix == old(e.prefix)
  {
    var i := 0;
    while i < |msgs|
      invariant 0 <= i <= |msgs|
      invariant e.prefix == old(e.prefix)
      invariant e.msgs == old(e.msgs) + msgs[..i]
    {
      e.Errorf(msgs[i]);
      assert msgs[..i + 1] == msgs[..i] + [msgs[i]];
      i := i + 1;
    }
    assert msgs[..i] == msgs;
  }

  /** The messages of checking each item in turn and merging its error
    * into one `Err`. */
  function MergedEach<T>(items: seq<T>, check: T -> ErrValue): (r: seq<string>)
    decreases |items|
  {
    if items == [] then [] else MergedEach(items[..|items| - 1], check) + Merged(check(items[|items| - 1]))
  }

  /** Checking one more item adds exactly the messages of its error. */
  lemma MergedEachStep<T>(items: seq<T>, check: T -> ErrValue, i: nat)
    requires i < |items|
    ensures MergedEach(items[..i + 1], check) == MergedEach(items[..i], check) + Merged(check(items[i]))
  {
    assert items[..i + 1][..i] == items[..i];
  }

  /** Merging the items' errors adds no message iff none of them adds
    * one (nil, or an `*Err` holding no message). */
  lemma {:induction false} MergedEachEmptyIff<T>(items: seq<T>, check: T -> ErrValue)
    ensures MergedEach(items, check) == [] <==> forall i :: 0 <= i < |items| ==> Merged(check(items[i])) == []
    decreases |items|
  {
    if items != [] {
      var init := items[..|items| - 1];
      MergedEachEmptyIff(init, check);
      assert forall i :: 0 <= i < |init| ==> init[i] == items[i];
    }
  }

  /** Regrouping an append. Dafny knows this law; calling it at a loop
    * step spares the solver from searching for it among the loop's other
    * facts. */
  lemma AppendAssoc(a: seq<string>, b: seq<string>, c: seq<string>)
    ensures (a + b) + c == a + (b + c)
  {
  }
}
