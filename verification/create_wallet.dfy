/**
 * The wallet-creation form: the error shown under the wallet name, under
 * the password and under the retyped password, and when "Continue" is
 * enabled. The password strength score comes from the zxcvbn library and
 * is a parameter here.
 */
module CreateWallet {
  import opened Wrappers
  import opened Text

  const WalletNameTooShort := "Wallet name is too short"
  const WalletNameTaken := "Wallet name already taken"
  const PasswordTooWeak := "Password is too weak"
  const PasswordInsecure := "Insecure password"
  const PasswordsDifferent := "Passwords are different"

  /** The stored wallet names include `name`; a missing list includes nothing. */
  predicate IsTaken(name: string, walletNames: Option<seq<string>>) {
    walletNames.Some? && name in walletNames.value
  }

  /**
   * The error `onUpdateWalletName` sets for `name`. The length is
   * JavaScript's, in UTF-16 code units.
   */
  function WalletNameError(name: string, walletNames: Option<seq<string>>): (error: string)
    ensures Utf16Length(name) < 3 ==> error == WalletNameTooShort
    ensures Utf16Length(name) >= 3 && IsTaken(name, walletNames) ==> error == WalletNameTaken
    ensures error == "" <==> Utf16Length(name) >= 3 && !IsTaken(name, walletNames)
  {
    if Utf16Length(name) < 3 then WalletNameTooShort
    else if IsTaken(name, walletNames) then WalletNameTaken
    else ""
  }

  /** The error `onUpdatePassword` sets for `password` of strength `score`. */
  function PasswordError(password: string, score: int): (error: string)
    ensures password == "" ==> error == ""
    ensures password != "" && score < 1 ==> error == PasswordTooWeak
    ensures password != "" && 1 <= score < 3 ==> error == PasswordInsecure
    ensures error == "" <==> password == "" || score >= 3
  {
    if |password| > 0 then
      if score < 1 then PasswordTooWeak
      else if score < 3 then PasswordInsecure
      else ""
    else ""
  }

  /** The error of the retype field. */
  function RetypeError(password: string, passwordCheck: string): (error: string)
    ensures error == PasswordsDifferent <==> passwordCheck != "" && passwordCheck != password
    ensures error == "" <==> passwordCheck == "" || passwordCheck == password
  {
    if passwordCheck != "" && password != passwordCheck then PasswordsDifferent else ""
  }

  /**
   * Two characters outside the Basic Multilingual Plane are four code
   * units, so such a name is long enough.
   */
  lemma {:induction false} TwoAstralCharactersAreLongEnough()
    ensures WalletNameError("\U{1F525}\U{1F525}", None) == ""
  {
    var name := "\U{1F525}\U{1F525}";
    assert name[1..][1..] == [];
    assert Utf16Length(name[1..]) == 2;
  }

  /** `isNextButtonActive`. */
  predicate IsNextButtonActive(
    walletName: string, walletNameError: string,
    password: string, passwordError: string, passwordCheck: string): (active: bool)
    ensures active ==> password != "" && walletName != "" && RetypeError(password, passwordCheck) == ""
  {
    && |password| > 0
    && |passwordError| == 0
    && password == passwordCheck
    && |walletName| > 0
    && |walletNameError| == 0
  }

  /**
   * Once both handlers have run, Continue is enabled exactly for a fresh
   * name of at least three UTF-16 code units and a non-empty password of score 3
   * or more that the retype field repeats.
   */
  lemma {:induction false} ContinueEnabledIff(
    walletName: string, walletNames: Option<seq<string>>,
    password: string, score: int, passwordCheck: string)
    ensures IsNextButtonActive(
              walletName, WalletNameError(walletName, walletNames),
              password, PasswordError(password, score), passwordCheck)
            <==> && Utf16Length(walletName) >= 3 && !IsTaken(walletName, walletNames)
                 && password != "" && score >= 3 && password == passwordCheck
  {
  }

  /** The form's state: the field values and the errors the handlers set. */
  class CreateWalletForm {
    const walletNames: Option<seq<string>>
    var walletName: string
    var walletNameError: string
    var password: string
    var passwordError: string
    var passwordCheck: string

    /** The form opens with the name and password already in the wallet context. */
    constructor (existingWalletName: string, existingPassword: string, walletNames: Option<seq<string>>)
      ensures this.walletNames == walletNames
      ensures walletName == existingWalletName && walletNameError == ""
      ensures password == existingPassword && passwordError == "" && passwordCheck == existingPassword
    {
      this.walletNames := walletNames;
      walletName := existingWalletName;
      walletNameError := "";
      password := existingPassword;
      passwordError := "";
      passwordCheck := existingPassword;
    }

    /** `onUpdatePassword`: stores the password and its error. */
    method UpdatePassword(newPassword: string, score: int)
      modifies this`password, this`passwordError
      ensures password == newPassword
      ensures passwordError == PasswordError(newPassword, score)
    {
      var error := "";
      if |newPassword| > 0 {
        if score < 1 {
          error := PasswordTooWeak;
        } else if score < 3 {
          error := PasswordInsecure;
        }
      }
      password := newPassword;
      passwordError := error;
    }

    /** `onUpdateWalletName`: stores the name and its error. */
    method UpdateWalletName(newWalletName: string)
      modifies this`walletName, this`walletNameError
      ensures walletName == newWalletName
      ensures walletNameError == WalletNameError(newWalletName, walletNames)
    {
      var error := "";
      if Utf16Length(newWalletName) < 3 {
        error := WalletNameTooShort;
      } else if walletNames.Some? && newWalletName in walletNames.value {
        error := WalletNameTaken;
      }
      walletName := newWalletName;
      walletNameError := error;
    }

    /** The retype field's `onChange`. */
    method UpdatePasswordCheck(newPasswordCheck: string)
      modifies this`passwordCheck
      ensures passwordCheck == newPasswordCheck
    {
      passwordCheck := newPasswordCheck;
    }

    function RetypeFieldError(): (error: string)
      reads this
      ensures error != "" <==> passwordCheck != "" && passwordCheck != password
    {
      RetypeError(password, passwordCheck)
    }

    function ContinueEnabled(): (active: bool)
      reads this
      ensures active ==> password != "" && passwordError == "" && password == passwordCheck
      ensures active ==> walletName != "" && walletNameError == ""
      ensures active ==> RetypeFieldError() == ""
    {
      IsNextButtonActive(walletName, walletNameError, password, passwordError, passwordCheck)
    }
  }
}
