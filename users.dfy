/** The `User` record of Serverample/Data/Model.cs: its fields, the values a
    new instance starts with, and the validation annotations on its properties. */
module Users {

  /** `DateTime` in UTC, as ticks; the clock is never read by the model. */
  type Timestamp = int

  datatype User = User(
    Id: int,
    Username: string,
    Email: string,
    PasswordHash: string,
    CreatedDate: Timestamp,
    IsActive: bool)

  /** `[StringLength(50)]` on Username. */
  const UsernameMaxLength := 50
  /** `[StringLength(100)]` on Email. */
  const EmailMaxLength := 100

  /** `new User()` at time `now`: the property initializers of the record. */
  function NewUser(now: Timestamp): (u: User)
    ensures u.Username == "" && u.Email == "" && u.PasswordHash == ""
    ensures u.IsActive && u.CreatedDate == now
    ensures !IsValid(u)
  {
    User(0, "", "", "", now, true)
  }

  /** The characters .NET's `Char.IsWhiteSpace` accepts. */
  predicate IsWhiteSpace(c: char)
  {
    c == ' ' || c == '\t' || c == '\n' || c == '\U{000B}' || c == '\U{000C}' || c == '\r'
    || c == '\U{0085}' || c == '\U{00A0}' || c == '\U{1680}'
    || ('\U{2000}' <= c <= '\U{200A}')
    || c == '\U{2028}' || c == '\U{2029}' || c == '\U{202F}' || c == '\U{205F}' || c == '\U{3000}'
  }

  /** `[Required]` on a string: present and not made of white space only. */
  predicate HasContent(s: string)
  {
    exists i :: 0 <= i < |s| && !IsWhiteSpace(s[i])
  }

  /** `[EmailAddress]`: exactly one '@', neither the first nor the last character. */
  predicate IsEmailAddress(s: string)
  {
    exists i :: 0 < i < |s| - 1 && s[i] == '@' && forall j :: 0 <= j < |s| && s[j] == '@' ==> j == i
  }

  /** A user that passes every annotation of the record. */
  predicate IsValid(u: User)
  {
    && HasContent(u.Username) && |u.Username| <= UsernameMaxLength
    && HasContent(u.Email) && IsEmailAddress(u.Email) && |u.Email| <= EmailMaxLength
    && HasContent(u.PasswordHash)
  }

  /** What a valid user's fields look like. */
  lemma ValidUserShape(u: User)
    requires IsValid(u)
    ensures 1 <= |u.Username| <= 50
    ensures 3 <= |u.Email| <= 100 && u.Email[0] != '@' && u.Email[|u.Email| - 1] != '@'
    ensures '@' in u.Email
    ensures 1 <= |u.PasswordHash|
  {
  }
}
