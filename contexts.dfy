/**
 * The policy table (`OneTimePassword::CONTEXTS`) and `find_context`, which picks
 * the first context whose `function_name` equals its argument and type-checks it.
 * Context hashes are dynamically typed in the source, so their values are modelled
 * as tagged Ruby values and the type checks as tag checks.
 */
module Contexts {
  import opened Wrappers

  /** The Ruby values a context hash can hold under a key. */
  datatype Value =
    | NilV
    | IntegerV(i: int)
    | DurationV(seconds: int)   // an ActiveSupport::Duration, as whole seconds
    | SymbolV(name: string)
    | StringV(s: string)

  /** A context hash, keyed by symbol name (`:expires_in` is "expires_in"). */
  type Context = map<string, Value>

  /** `context[key]`: a missing key reads as nil. */
  function Get(c: Context, key: string): Value {
    if key in c then c[key] else NilV
  }

  /** The two classes `find_context` insists on. */
  datatype Kind = IntegerKind | DurationKind

  /** `v.class == Integer` or `v.class == ActiveSupport::Duration`. */
  predicate HasKind(v: Value, k: Kind) {
    match k
    case IntegerKind => v.IntegerV?
    case DurationKind => v.DurationV?
  }

  /** The keys `find_context` checks, with the class each must have, in the order it checks them. */
  const CheckedKeys: seq<(string, Kind)> := [
    ("expires_in", DurationKind),
    ("max_authenticate_password_count", IntegerKind),
    ("password_length", IntegerKind),
    ("password_failed_limit", IntegerKind),
    ("password_failed_period", DurationKind)
  ]

  predicate KeyOk(c: Context, j: nat)
    requires j < |CheckedKeys|
  {
    HasKind(Get(c, CheckedKeys[j].0), CheckedKeys[j].1)
  }

  predicate WellTyped(c: Context) {
    forall j: nat :: j < |CheckedKeys| ==> KeyOk(c, j)
  }

  /** What `find_context` raises: ArgumentError, or a RuntimeError naming the mistyped key. */
  datatype ContextError = NotFoundContext | MistakeContext(key: string)

  /** A context that passed the checks, with durations converted to seconds. */
  datatype Policy = Policy(
    functionName: Value,
    expiresIn: int,
    maxAuthenticatePasswordCount: int,
    passwordLength: int,
    passwordFailedLimit: int,
    passwordFailedPeriod: int)

  predicate Matches(c: Context, functionName: Value) {
    Get(c, "function_name") == functionName
  }

  /** Index of the first context whose function_name equals the argument (`select … .first`). */
  function FirstMatching(contexts: seq<Context>, functionName: Value): (r: Option<nat>)
    ensures r.None? <==> forall i :: 0 <= i < |contexts| ==> !Matches(contexts[i], functionName)
    ensures r.Some? ==>
      && r.value < |contexts|
      && Matches(contexts[r.value], functionName)
      && forall i :: 0 <= i < r.value ==> !Matches(contexts[i], functionName)
  {
    if |contexts| == 0 then None
    else if Matches(contexts[0], functionName) then Some(0)
    else
      match FirstMatching(contexts[1..], functionName)
      case None =>
        assert forall i :: 1 <= i < |contexts| ==> contexts[i] == contexts[1..][i - 1];
        None
      case Some(i) =>
        assert forall k :: 1 <= k <= i ==> contexts[k] == contexts[1..][k - 1];
        Some(i + 1)
  }

  /** The chain of class checks on the matched context, in the source's order. */
  function Validate(c: Context): (r: Result<Policy, ContextError>)
    ensures r.Success? <==> WellTyped(c)
    ensures r.Success? ==>
      KeyOk(c, 0) && KeyOk(c, 1) && KeyOk(c, 2) && KeyOk(c, 3) && KeyOk(c, 4) &&
      r.value == Policy(
      Get(c, "function_name"),
      Get(c, "expires_in").seconds,
      Get(c, "max_authenticate_password_count").i,
      Get(c, "password_length").i,
      Get(c, "password_failed_limit").i,
      Get(c, "password_failed_period").seconds)
    ensures r.Failure? ==> exists j: nat ::
      && j < |CheckedKeys|
      && r.error == MistakeContext(CheckedKeys[j].0)
      && !KeyOk(c, j)
      && forall k: nat :: k < j ==> KeyOk(c, k)
  {
    if !Get(c, "expires_in").DurationV? then
      assert !KeyOk(c, 0);
      Failure(MistakeContext("expires_in"))
    else if !Get(c, "max_authenticate_password_count").IntegerV? then
      assert !KeyOk(c, 1);
      Failure(MistakeContext("max_authenticate_password_count"))
    else if !Get(c, "password_length").IntegerV? then
      assert !KeyOk(c, 2);
      Failure(MistakeContext("password_length"))
    else if !Get(c, "password_failed_limit").IntegerV? then
      assert !KeyOk(c, 3);
      Failure(MistakeContext("password_failed_limit"))
    else if !Get(c, "password_failed_period").DurationV? then
      assert !KeyOk(c, 4);
      Failure(MistakeContext("password_failed_period"))
    else
      assert forall j: nat :: j < |CheckedKeys| ==> KeyOk(c, j);
      Success(Policy(
        Get(c, "function_name"),
        Get(c, "expires_in").seconds,
        Get(c, "max_authenticate_password_count").i,
        Get(c, "password_length").i,
        Get(c, "password_failed_limit").i,
        Get(c, "password_failed_period").seconds))
  }

  /** `find_context(function_name)` over the policy table `contexts`. */
  function FindContext(contexts: seq<Context>, functionName: Value): (r: Result<Policy, ContextError>)
    ensures r == Failure(NotFoundContext) <==> forall i :: 0 <= i < |contexts| ==> !Matches(contexts[i], functionName)
    ensures forall i ::
      0 <= i < |contexts| && Matches(contexts[i], functionName) &&
      (forall j :: 0 <= j < i ==> !Matches(contexts[j], functionName))
      ==> r == Validate(contexts[i])
    ensures r.Success? ==> r.value.functionName == functionName
  {
    match FirstMatching(contexts, functionName)
    case None => Failure(NotFoundContext)
    case Some(i) => Validate(contexts[i])
  }

  /** A matching context further down the table is never consulted, even when the first match is mistyped. */
  lemma FirstMatchShadowsLaterOnes(first: Context, rest: seq<Context>, functionName: Value)
    requires Matches(first, functionName)
    ensures FindContext([first] + rest, functionName) == Validate(first)
    ensures !WellTyped(first) ==> FindContext([first] + rest, functionName).Failure?
  {
    assert ([first] + rest)[0] == first;
  }

  /** The two policies of the installer's sample initializer. */
  function SampleContexts(): seq<Context> {
    [
      map["function_name" := SymbolV("sign_up"), "version" := IntegerV(0),
          "expires_in" := DurationV(30 * 60), "max_authenticate_password_count" := IntegerV(5),
          "password_length" := IntegerV(6), "password_failed_limit" := IntegerV(10),
          "password_failed_period" := DurationV(60 * 60)],
      map["function_name" := SymbolV("sign_in"), "version" := IntegerV(0),
          "expires_in" := DurationV(30 * 60), "max_authenticate_password_count" := IntegerV(5),
          "password_length" := IntegerV(10), "password_failed_limit" := IntegerV(10),
          "password_failed_period" := DurationV(60 * 60)]
    ]
  }

  /** By symbol, `:sign_in` resolves to the sample sign_in policy. */
  lemma SampleSignIn()
    ensures FindContext(SampleContexts(), SymbolV("sign_in")) == Success(Policy(SymbolV("sign_in"), 1800, 5, 10, 10, 3600))
  {
    var cs := SampleContexts();
    assert !Matches(cs[0], SymbolV("sign_in"));
    assert Matches(cs[1], SymbolV("sign_in"));
    assert Get(cs[1], "expires_in") == DurationV(1800);
    assert Get(cs[1], "max_authenticate_password_count") == IntegerV(5);
    assert Get(cs[1], "password_length") == IntegerV(10);
    assert Get(cs[1], "password_failed_limit") == IntegerV(10);
    assert Get(cs[1], "password_failed_period") == DurationV(3600);
    assert FirstMatching(cs, SymbolV("sign_in")) == Some(1);
  }

  /** The commented-out change_email context, and the integer 0 in place of the symbol, are not found. */
  lemma SampleNotFound()
    ensures FindContext(SampleContexts(), SymbolV("change_email")) == Failure(NotFoundContext)
    ensures FindContext(SampleContexts(), IntegerV(0)) == Failure(NotFoundContext)
  {
    var cs := SampleContexts();
    assert Get(cs[0], "function_name") == SymbolV("sign_up");
    assert Get(cs[1], "function_name") == SymbolV("sign_in");
  }
}
