/** The backend's error enumeration and the fixed text each variant displays as. */
module Errors {

  datatype ContractError =
    | AnonymousCaller
    | UserNotFound
    | NotInCommittee
    | ConfigNotSet
    | ProposeNotFound
    | VoteNotOpen
    | UserAlreadyVoted
    | InvalidAction
    | ProposeInProgress
    | AlreadyInitialized
    | ThresholdToLow
    | CandidatesNotFound
    | InvalidPercentage

  /** The display text of a variant; every message is a sentence ending in a period. */
  function Message(e: ContractError): (m: string)
    ensures |m| > 1 && m[|m| - 1] == '.'
  {
    match e
    case AnonymousCaller => "Anonymous principal not allowed to make calls."
    case UserNotFound => "User not found."
    case NotInCommittee => "User do not belongs to committee."
    case ConfigNotSet => "Config is not set."
    case ProposeNotFound => "Propose not found."
    case VoteNotOpen => "Vote is not open."
    case UserAlreadyVoted => "User already voted."
    case InvalidAction => "Invalid action."
    case ProposeInProgress => "Propose is still in progress."
    case AlreadyInitialized => "The canister is already initialized."
    case ThresholdToLow => "Threshold is lower then min threshold length (committee_size / 2) + 1."
    case CandidatesNotFound => "Candidates do not found."
    case InvalidPercentage => "Invalid percentage."
  }

  /** The length of a variant's text and its letter before the final period, which already tell the variants apart. */
  ghost function Signature(e: ContractError): (sig: (int, char))
  {
    match e
    case AnonymousCaller => (46, 's')
    case UserNotFound => (15, 'd')
    case NotInCommittee => (33, 'e')
    case ConfigNotSet => (18, 't')
    case ProposeNotFound => (18, 'd')
    case VoteNotOpen => (17, 'n')
    case UserAlreadyVoted => (19, 'd')
    case InvalidAction => (15, 'n')
    case ProposeInProgress => (29, 's')
    case AlreadyInitialized => (36, 'd')
    case ThresholdToLow => (70, '1')
    case CandidatesNotFound => (24, 'd')
    case InvalidPercentage => (19, 'e')
  }

  lemma SignatureOfMessage(e: ContractError)
    ensures Signature(e) == (|Message(e)|, Message(e)[|Message(e)| - 2])
  {
    match e
    case AnonymousCaller =>
    case UserNotFound =>
    case NotInCommittee =>
    case ConfigNotSet =>
    case ProposeNotFound =>
    case VoteNotOpen =>
    case UserAlreadyVoted =>
    case InvalidAction =>
    case ProposeInProgress =>
    case AlreadyInitialized =>
    case ThresholdToLow =>
    case CandidatesNotFound =>
    case InvalidPercentage =>
  }

  /** No two variants display alike, so a caller can tell every error from its text. */
  lemma MessageInjective(a: ContractError, b: ContractError)
    ensures Message(a) == Message(b) ==> a == b
  {
    SignatureOfMessage(a);
    SignatureOfMessage(b);
  }
}
