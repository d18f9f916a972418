/** The yes/no prompt (`ask_yesno`).

    The picker is offered ten options, all "No" but the sixth, and blocks
    until one is chosen. The choice itself is an input of the model: `None`
    stands for the `io::Error` the picker can return.
 */
module Prompt {
  import opened GptTable

  const YES_NO_OPTIONS: seq<string> :=
    ["No", "No", "No", "No", "No", "Yes", "No", "No", "No", "No"]

  /** `ask_yesno`: an error from the picker is passed on, and a choice means
      "yes" exactly when it is the string "Yes". */
  function AskYesNo(choice: Option<string>): (r: Result<bool>)
    ensures r.IoError? <==> choice.None?
    ensures r.Ok? ==> (r.value <==> choice.value == "Yes")
  {
    match choice
    case None => IoError
    case Some(v) => Ok(v == "Yes")
  }

  /** Of the options offered, only the sixth answers "yes". */
  lemma OnlySixthOptionConfirms(i: nat)
    requires i < |YES_NO_OPTIONS|
    ensures AskYesNo(Some(YES_NO_OPTIONS[i])) == Ok(i == 5)
  {
  }
}
