/** The class-validator rules on the registration and board-creation bodies.
    Lengths are those of validator.js `isLength`, which class-validator's
    `@MinLength` and `@MaxLength` call: code points, not UTF-16 code units,
    with the variation selectors U+FE0E and U+FE0F not counted. */
module Validation {
  import opened Common
  import opened AuthDto
  import opened BoardEntity

  /** A property of the JSON body: missing (or null), a string, or a value
      of another type. */
  datatype Field = Absent | Text(s: string) | NonText

  /** The two variation selectors, U+FE0E (text) and U+FE0F (emoji). */
  predicate IsVariationSelector(c: char) {
    c as int == 0xFE0E || c as int == 0xFE0F
  }

  /** The length `isLength` compares: `s.length`, less one for every
      surrogate pair and one for every variation selector.  On a string of
      code points that is one per code point other than a selector. */
  function IsLength(s: string): (n: nat)
    ensures n <= |s|
    ensures (forall k :: 0 <= k < |s| ==> !IsVariationSelector(s[k])) ==> n == |s|
    ensures (forall k :: 0 <= k < |s| ==> IsVariationSelector(s[k])) ==> n == 0
  {
    if s == [] then 0
    else (if IsVariationSelector(s[0]) then 0 else 1) + IsLength(s[1..])
  }

  /** The measure of a concatenation is the sum of the measures. */
  lemma {:induction false} IsLengthAppend(a: string, b: string)
    ensures IsLength(a + b) == IsLength(a) + IsLength(b)
  {
    if a == [] {
      assert a + b == b;
    } else {
      assert (a + b)[0] == a[0];
      assert (a + b)[1..] == a[1..] + b;
      IsLengthAppend(a[1..], b);
    }
  }

  /** `@IsString()`. */
  predicate IsString(f: Field) {
    f.Text?
  }

  /** `@IsNotEmpty()`: anything but undefined, null and "". */
  predicate IsNotEmpty(f: Field) {
    f != Absent && f != Text("")
  }

  /** `@MinLength(n)` and `@MaxLength(n)`: a string whose `isLength`
      measure is at least, or at most, `n`. */
  predicate MinLength(f: Field, n: nat) {
    f.Text? && IsLength(f.s) >= n
  }

  predicate MaxLength(f: Field, n: nat) {
    f.Text? && IsLength(f.s) <= n
  }

  /** `@IsEmail()`, with the email grammar left as a parameter. */
  predicate IsEmail(f: Field, isEmail: string -> bool) {
    f.Text? && isEmail(f.s)
  }

  datatype RegisterBody = RegisterBody(email: Field, nickname: Field, password: Field)

  /** The registration rules: an email; a nickname measuring 2 to 20; a
      password measuring 4 to 20, with no rule on its characters. */
  predicate RegisterValid(b: RegisterBody, isEmail: string -> bool) {
    && IsEmail(b.email, isEmail)
    && IsString(b.nickname) && IsNotEmpty(b.nickname) && MinLength(b.nickname, 2) && MaxLength(b.nickname, 20)
    && IsString(b.password) && IsNotEmpty(b.password) && MinLength(b.password, 4) && MaxLength(b.password, 20)
  }

  /** The body as a RegisterDto once it passes, and nothing otherwise. */
  function ValidateRegister(b: RegisterBody, isEmail: string -> bool): (r: Option<RegisterDto>)
    ensures r.Some? <==> RegisterValid(b, isEmail)
    ensures r.Some? ==>
      && b.email == Text(r.value.email) && isEmail(r.value.email)
      && b.nickname == Text(r.value.nickname) && 2 <= IsLength(r.value.nickname) <= 20
      && b.password == Text(r.value.password) && 4 <= IsLength(r.value.password) <= 20
  {
    if RegisterValid(b, isEmail) then Some(RegisterDto(b.email.s, b.password.s, b.nickname.s)) else None
  }

  /** In code points, an accepted nickname has at least 2 and an accepted
      password at least 4; neither is empty. */
  lemma RegisterCodePointBounds(b: RegisterBody, isEmail: string -> bool)
    requires RegisterValid(b, isEmail)
    ensures 2 <= |b.nickname.s| && 4 <= |b.password.s|
    ensures b.nickname.s != "" && b.password.s != ""
  {
  }

  /** The upper bounds do not bound the code points: a nickname of "ab"
      followed by any number of U+FE0F measures 2 and is accepted. */
  lemma SelectorPaddedNicknameAccepted(email: string, isEmail: string -> bool, k: nat)
    requires isEmail(email)
    ensures var nickname := "ab" + seq(k, _ => 0xFE0F as char);
      && |nickname| == k + 2
      && RegisterValid(RegisterBody(Text(email), Text(nickname), Text("pass")), isEmail)
  {
    IsLengthAppend("ab", seq(k, _ => 0xFE0F as char));
  }

  /** A nickname that is a single character outside the basic plane
      measures 1 and so fails `@MinLength(2)`. */
  lemma SingleAstralNicknameRejected(email: string, isEmail: string -> bool)
    ensures ValidateRegister(RegisterBody(Text(email), Text([0x1F600 as char]), Text("pass")), isEmail).None?
  {
    assert IsLength([0x1F600 as char]) == 1;
  }

  /** An empty nickname or password is refused, whatever else the body holds. */
  lemma EmptyFieldsRejected(b: RegisterBody, isEmail: string -> bool)
    requires b.nickname == Text("") || b.password == Text("") || b.nickname == Absent || b.password == Absent
    ensures ValidateRegister(b, isEmail).None?
  {
  }

  datatype CreateBoardBody = CreateBoardBody(title: Field, content: Field)

  /** The board-creation rules: a title measuring at least 2 and no upper
      bound; a content measuring at most 100, possibly empty. */
  predicate CreateBoardValid(b: CreateBoardBody) {
    && IsString(b.title) && IsNotEmpty(b.title) && MinLength(b.title, 2)
    && IsString(b.content) && MaxLength(b.content, 100)
  }

  function ValidateCreateBoard(b: CreateBoardBody): (r: Option<CreateBoardDto>)
    ensures r.Some? <==> CreateBoardValid(b)
    ensures r.Some? ==>
      && b.title == Text(r.value.title) && IsLength(r.value.title) >= 2
      && b.content == Text(r.value.content) && IsLength(r.value.content) <= 100
  {
    if CreateBoardValid(b) then Some(CreateBoardDto(b.title.s, b.content.s)) else None
  }

  /** The empty content is accepted. */
  lemma EmptyContentAccepted(title: string)
    requires IsLength(title) >= 2
    ensures ValidateCreateBoard(CreateBoardBody(Text(title), Text(""))) == Some(CreateBoardDto(title, ""))
  {
  }

  /** A content of 100 characters outside the basic plane (200 UTF-16 code
      units) measures 100 and is accepted. */
  lemma AstralContentAccepted()
    ensures ValidateCreateBoard(CreateBoardBody(Text("ab"), Text(seq(100, _ => 0x1F600 as char)))).Some?
  {
  }

  /** A field that is not a string fails every rule but `@IsNotEmpty`. */
  lemma NonTextFailsLengthRules(n: nat)
    ensures !IsString(NonText) && IsNotEmpty(NonText)
    ensures !MinLength(NonText, n) && !MaxLength(NonText, n)
    ensures ValidateCreateBoard(CreateBoardBody(NonText, Text(""))).None?
  {
  }
}
