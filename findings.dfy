/** Four places where the code as written does not do what it evidently
    means to, each modelled as written with an input that shows it, next to
    the intended behaviour with its property proved. */
module Findings {
  import opened Common
  import opened Crypto
  import opened UserEntity
  import opened BoardEntity
  import opened Validation
  import opened AuthDto
  import Auth

  // ---------------------------------------------------------------------
  // 1. The title bound.  Board creation validates only a minimum title
  //    length, while the column holds 100 characters; a longer title passes
  //    validation and is then refused by the store (DataTooLong), which the
  //    application reports as an internal error.

  /** The 101-character title "aaa…a" passes validation yet does not fit
      the column. */
  lemma LongTitlePassesValidation()
    ensures var title := seq(101, _ => 'a');
      && ValidateCreateBoard(CreateBoardBody(Text(title), Text(""))) == Some(CreateBoardDto(title, ""))
      && |title| > TitleColumnLength
  {
    var title := seq(101, _ => 'a');
    assert IsLength(title) == 101;
  }

  /** A `@MaxLength(100)` alone would not close the gap: the column counts
      every code point, `isLength` skips variation selectors, so 50 "a"s
      followed by 70 U+FE0F measure 50 and still do not fit. */
  lemma SelectorPaddedTitleOverflows()
    ensures var title := seq(50, _ => 'a') + seq(70, _ => 0xFE0F as char);
      && MaxLength(Text(title), TitleColumnLength)
      && |title| > TitleColumnLength
  {
    IsLengthAppend(seq(50, _ => 'a'), seq(70, _ => 0xFE0F as char));
  }

  /** The rules with the title bounded as the column bounds it: at most 100
      code points. */
  predicate CreateBoardValidBounded(b: CreateBoardBody) {
    CreateBoardValid(b) && |b.title.s| <= TitleColumnLength
  }

  /** The validation with the bound: everything it accepts was accepted
      before, and every title it accepts fits the column, so the store never
      refuses a board body that passed it. */
  function ValidateCreateBoardBounded(b: CreateBoardBody): (r: Option<CreateBoardDto>)
    ensures r.Some? <==> CreateBoardValidBounded(b)
    ensures r.Some? ==> ValidateCreateBoard(b) == r && |r.value.title| <= TitleColumnLength
  {
    if CreateBoardValidBounded(b) then ValidateCreateBoard(b) else None
  }

  // ---------------------------------------------------------------------
  // bcrypt keys Blowfish with the UTF-8 bytes of its input, at most 72 of
  // them, cutting through a multi-byte character if the limit falls inside
  // one; the key schedule reads 72 bytes of the key and a NUL, repeated.

  const BcryptInputBytes: nat := 72

  type Byte = b: int | 0 <= b < 0x100

  /** Bytes of one code point in UTF-8. */
  function Utf8Width(c: char): (w: nat)
    ensures 1 <= w <= 4
    ensures (c as int) < 0x80 ==> w == 1
    ensures (c as int) < 0x10000 ==> w <= 3
  {
    var n := c as int;
    if n < 0x80 then 1 else if n < 0x800 then 2 else if n < 0x10000 then 3 else 4
  }

  /** The UTF-8 encoding of one code point: a lead byte that gives the
      width, then six bits per continuation byte. */
  function Utf8Char(c: char): (bs: seq<Byte>)
    ensures |bs| == Utf8Width(c)
  {
    var n := c as int;
    var q := n / 0x40;
    var r := q / 0x40;
    if n < 0x80 then [n]
    else if n < 0x800 then [0xC0 + q, 0x80 + n % 0x40]
    else if n < 0x10000 then [0xE0 + r, 0x80 + q % 0x40, 0x80 + n % 0x40]
    else [0xF0 + r / 0x40, 0x80 + r % 0x40, 0x80 + q % 0x40, 0x80 + n % 0x40]
  }

  /** The width a lead byte announces. */
  function LeadWidth(b: Byte): nat {
    if b < 0x80 then 1 else if b < 0xE0 then 2 else if b < 0xF0 then 3 else 4
  }

  lemma LeadGivesWidth(c: char)
    ensures LeadWidth(Utf8Char(c)[0]) == Utf8Width(c)
  {
  }

  /** Distinct code points have distinct encodings. */
  lemma Utf8CharInjective(c: char, d: char)
    requires Utf8Char(c) == Utf8Char(d)
    ensures c == d
  {
    LeadGivesWidth(c);
    LeadGivesWidth(d);
    var n, m := c as int, d as int;
    var w := Utf8Width(c);
    if w >= 3 {
      assert (n / 0x40) / 0x40 == (m / 0x40) / 0x40;
    }
    assert n / 0x40 == m / 0x40;
    assert n == m;
  }

  /** The UTF-8 encoding of a string. */
  function Encode(s: string): (bs: seq<Byte>)
    ensures |bs| == Utf8Length(s)
  {
    if s == [] then [] else Utf8Char(s[0]) + Encode(s[1..])
  }

  /** UTF-8 length: one to four bytes per code point. */
  function Utf8Length(s: string): (n: nat)
    ensures |s| <= n <= 4 * |s|
  {
    if s == [] then 0 else Utf8Width(s[0]) + Utf8Length(s[1..])
  }

  lemma {:induction false} EncodeAppend(a: string, b: string)
    ensures Encode(a + b) == Encode(a) + Encode(b)
  {
    if a == [] {
      assert a + b == b;
    } else {
      calc {
        Encode(a + b);
      == { assert (a + b)[0] == a[0]; assert (a + b)[1..] == a[1..] + b; }
        Utf8Char(a[0]) + Encode(a[1..] + b);
      == { EncodeAppend(a[1..], b); }
        Utf8Char(a[0]) + (Encode(a[1..]) + Encode(b));
      }
    }
  }

  /** The encoding determines the string. */
  lemma {:induction false} EncodeInjective(s: string, t: string)
    requires Encode(s) == Encode(t)
    ensures s == t
  {
    if s != [] && t != [] {
      var e := Encode(s);
      LeadGivesWidth(s[0]);
      LeadGivesWidth(t[0]);
      var w := Utf8Width(s[0]);
      assert e[0] == Utf8Char(s[0])[0] == Utf8Char(t[0])[0];
      assert e[..w] == Utf8Char(s[0]) == Utf8Char(t[0]);
      Utf8CharInjective(s[0], t[0]);
      assert e[w..] == Encode(s[1..]) == Encode(t[1..]);
      EncodeInjective(s[1..], t[1..]);
      assert s == [s[0]] + s[1..];
      assert t == [t[0]] + t[1..];
    }
  }

  lemma {:induction false} RepeatLength(c: char, k: nat)
    ensures Utf8Length(seq(k, _ => c)) == k * Utf8Width(c)
  {
    if k > 0 {
      assert seq(k, _ => c)[0] == c;
      assert seq(k, _ => c)[1..] == seq(k - 1, _ => c);
      RepeatLength(c, k - 1);
    }
  }

  /** The key bcrypt is given: the UTF-8 bytes of the string, at most 72
      of them. */
  function BcryptKey(s: string): (k: seq<Byte>)
    ensures |k| <= BcryptInputBytes && k <= Encode(s)
    ensures Utf8Length(s) <= BcryptInputBytes ==> k == Encode(s)
    ensures Utf8Length(s) > BcryptInputBytes ==> |k| == BcryptInputBytes
  {
    var e := Encode(s);
    if |e| <= BcryptInputBytes then e else e[..BcryptInputBytes]
  }

  /** `k` read from the start again and again until `n` bytes are read. */
  function Cycle(k: seq<Byte>, n: nat): (r: seq<Byte>)
    requires |k| > 0
    ensures |r| == n
    ensures n <= |k| ==> r == k[..n]
    ensures n >= |k| ==> r[..|k|] == k
    decreases n
  {
    if n <= |k| then k[..n] else k + Cycle(k, n - |k|)
  }

  /** Reading a key written out twice is reading the key. */
  lemma {:induction false} CycleTwice(k: seq<Byte>, n: nat)
    requires |k| > 0
    ensures Cycle(k + k, n) == Cycle(k, n)
    decreases n
  {
    if n > 2 * |k| {
      CycleTwice(k, n - 2 * |k|);
      assert Cycle(k, n) == k + (k + Cycle(k, n - 2 * |k|));
    } else if n > |k| {
      assert Cycle(k, n) == k + k[..n - |k|];
    }
  }

  /** The 72 bytes the $2b$ key schedule reads: the key and a NUL byte,
      repeated.  A key of 72 bytes is read whole and its NUL is never
      reached; a shorter key is read up to its NUL and then again. */
  function BcryptInput(s: string): (r: seq<Byte>)
    ensures |r| == BcryptInputBytes
    ensures Utf8Length(s) >= BcryptInputBytes ==> r == Encode(s)[..BcryptInputBytes]
    ensures Utf8Length(s) < BcryptInputBytes ==>
      r[..Utf8Length(s)] == Encode(s) && r[Utf8Length(s)] == 0
  {
    var k := BcryptKey(s) + [0];
    assert k[..|k| - 1] == BcryptKey(s);
    Cycle(k, BcryptInputBytes)
  }

  /** A bcrypt digest: the salt and the bytes that were digested. */
  datatype BcryptDigest = BcryptDigest(salt: Salt, input: seq<Byte>)

  /** `bcrypt.hash` as written: the digest of the first 72 bytes. */
  function BcryptHash(secret: string, salt: Salt): (h: BcryptDigest)
    ensures h.salt == salt && h.input == BcryptInput(secret)
  {
    BcryptDigest(salt, BcryptInput(secret))
  }

  /** `bcrypt.compare` as written. */
  predicate BcryptCompare(candidate: string, h: BcryptDigest) {
    BcryptInput(candidate) == h.input
  }

  /** Two strings that agree on a prefix of at least 72 bytes are the same
      to bcrypt, whatever follows. */
  lemma BcryptIgnoresTail(p: string, x: string, y: string, salt: Salt)
    requires Utf8Length(p) >= BcryptInputBytes
    ensures BcryptCompare(p + x, BcryptHash(p + y, salt))
  {
    BcryptInputOfLongPrefix(p, x);
    BcryptInputOfLongPrefix(p, y);
  }

  /** Past a prefix of at least 72 bytes nothing is read. */
  lemma BcryptInputOfLongPrefix(p: string, x: string)
    requires Utf8Length(p) >= BcryptInputBytes
    ensures BcryptInput(p + x) == Encode(p)[..BcryptInputBytes]
  {
    EncodeAppend(p, x);
    CutOfConcat(Encode(p), Encode(x), BcryptInputBytes);
  }

  lemma CutOfConcat(e: seq<Byte>, f: seq<Byte>, k: nat)
    requires k <= |e|
    ensures |e + f| >= k && (e + f)[..k] == e[..k]
  {
  }

  /** Whether a string holds U+0000, whose UTF-8 byte ends a C string. */
  predicate HasNul(s: string) {
    0 as char in s
  }

  /** Only U+0000 encodes to a zero byte. */
  lemma {:induction false} EncodeNulFree(s: string)
    requires !HasNul(s)
    ensures 0 !in Encode(s)
  {
    if s != [] {
      assert s[0] != 0 as char;
      assert s[1..] <= s[1..] && forall c :: c in s[1..] ==> c in s;
      EncodeNulFree(s[1..]);
    }
  }

  /** Reading 72 bytes of a NUL-free string shorter than 72 bytes stops at
      its length: the first zero byte read is there. */
  lemma ShortInputZeroAt(s: string, i: nat)
    requires !HasNul(s) && Utf8Length(s) < BcryptInputBytes && i < Utf8Length(s)
    ensures BcryptInput(s)[i] != 0
  {
    EncodeNulFree(s);
    assert BcryptInput(s)[i] == BcryptInput(s)[..Utf8Length(s)][i] == Encode(s)[i];
  }

  /** A secret shorter than 72 bytes is matched by itself, and by another
      string only when one of the two holds U+0000. */
  lemma ShortSecretComparedWhole(secret: string, candidate: string, salt: Salt)
    requires Utf8Length(secret) < BcryptInputBytes
    ensures candidate == secret ==> BcryptCompare(candidate, BcryptHash(secret, salt))
    ensures BcryptCompare(candidate, BcryptHash(secret, salt)) ==>
      candidate == secret || HasNul(secret) || HasNul(candidate)
  {
    if BcryptCompare(candidate, BcryptHash(secret, salt)) && !HasNul(secret) && !HasNul(candidate) {
      var input := BcryptInput(secret);
      var n, m := Utf8Length(secret), Utf8Length(candidate);
      EncodeNulFree(candidate);
      if m >= BcryptInputBytes {
        assert false;
      }
      if m < n {
        ShortInputZeroAt(secret, m);
        assert false;
      }
      if n < m {
        assert false;
      }
      assert Encode(candidate) == input[..n] == Encode(secret);
      EncodeInjective(candidate, secret);
    }
  }

  // ---------------------------------------------------------------------
  // 2. The refresh digest.  A refresh token is a JWT (ASCII): a fixed
  //    header, then the claims in the order sub, email, role, iat, exp.
  //    Every refresh token of one account therefore starts with the same
  //    72 characters, and after a rotation the superseded token still
  //    matches the new digest.

  /** The value `updateRefreshToken` stores, as written: the bcrypt digest
      of a truthy token, or null. */
  function RefreshColumnAsWritten(token: Option<string>, salt: Salt): (h: Option<BcryptDigest>)
    ensures h.Some? <==> token.Some? && token.value != ""
    ensures h.Some? ==> h.value == BcryptHash(token.value, salt)
  {
    if token.Some? && token.value != "" then Some(BcryptHash(token.value, salt)) else None
  }

  /** The refresh check of `refreshAccessToken` as written. */
  predicate AcceptsRefreshAsWritten(stored: Option<BcryptDigest>, token: string) {
    stored.Some? && BcryptCompare(token, stored.value)
  }

  /** Two refresh tokens of account 1 (kim@example.com), issued a minute
      apart, as `jwtService.signAsync` writes them: they first differ inside
      `iat`, at character 122, well past the 72 bytes bcrypt reads. */
  const SharedStart: string := "eyJhbGciOiJIUzI1NiIsInR5cCI6IkpXVCJ9.eyJzdWIiOjEsImVtYWlsIjoia2ltQGV4YW1wbGUuY29tIiwicm9sZSI6InVzZXIiLCJpYXQiOjE3MDAwMDAw"
  const SupersededTail: string := "M" + "DAsImV4cCI6MTcwMDYwNDgwMH0.zxxlCNWvEbUGf8uhF8cDLpKZaI2lh9aL2jaKGaCHT-A"
  const CurrentTail: string := "N" + "jAsImV4cCI6MTcwMDYwNDg2MH0.Fbf9W9iXZ3iT_9sYrQdWsUxVSd4xuWVuo0LXIz9hgjc"
  const SupersededToken: string := SharedStart + SupersededTail
  const CurrentToken: string := SharedStart + CurrentTail

  /** After the rotation from the first token to the second, the first is
      still accepted. */
  lemma SupersededRefreshTokenStillAccepted(salt: Salt)
    ensures SupersededToken != CurrentToken
    ensures AcceptsRefreshAsWritten(RefreshColumnAsWritten(Some(CurrentToken), salt), SupersededToken)
  {
    assert SupersededToken[|SharedStart|] == 'M' && CurrentToken[|SharedStart|] == 'N';
    BcryptIgnoresTail(SharedStart, SupersededTail, CurrentTail, salt);
  }

  /** The intended behaviour, which the rest of the model implements: the
      stored digest accepts the current refresh token and no other. */
  lemma RotationRevokesSuperseded(u: User, superseded: string, current: string, salt: Salt)
    requires superseded != current
    ensures !Auth.AcceptsRefresh(u.(refreshHash := Auth.RefreshColumn(Some(current), salt)), superseded)
  {
    Auth.RefreshColumnAcceptsOnlyItsToken(u, current, superseded, salt);
  }

  // ---------------------------------------------------------------------
  // 3. The password bound.  Registration bounds the password at 20 by the
  //    `isLength` measure, which allows up to 80 bytes of UTF-8 and more
  //    with variation selectors; bcrypt then digests only the first 72, so
  //    a shorter password logs into the account.

  const Grin: char := 0x1F600 as char

  /** Twenty U+1F600 (80 bytes) is an accepted password; eighteen of them
      (the first 72 bytes) is another accepted password, and it matches the
      digest of the first. */
  lemma TruncatedPasswordAccepted(email: string, isEmail: string -> bool, salt: Salt)
    requires isEmail(email)
    ensures var password := seq(20, _ => Grin);
      var candidate := seq(18, _ => Grin);
      && RegisterValid(RegisterBody(Text(email), Text("kim"), Text(password)), isEmail)
      && RegisterValid(RegisterBody(Text(email), Text("kim"), Text(candidate)), isEmail)
      && candidate != password
      && BcryptCompare(candidate, BcryptHash(password, salt))
  {
    var password := seq(20, _ => Grin);
    var candidate := seq(18, _ => Grin);
    RepeatMeasure(Grin, 20);
    RepeatMeasure(Grin, 18);
    assert IsLength("kim") == 3;
    MeasuredFieldsAccepted(email, isEmail, "kim", password);
    MeasuredFieldsAccepted(email, isEmail, "kim", candidate);
    assert |candidate| != |password|;
    TruncatedPasswordMatches(salt);
  }

  /** A character other than a selector, repeated k times, measures k. */
  lemma RepeatMeasure(c: char, k: nat)
    requires !IsVariationSelector(c)
    ensures IsLength(seq(k, _ => c)) == k
  {
    var s := seq(k, _ => c);
    assert forall i :: 0 <= i < |s| ==> s[i] == c;
  }

  /** The registration rules hold exactly on the measures of the fields. */
  lemma MeasuredFieldsAccepted(email: string, isEmail: string -> bool, nickname: string, password: string)
    requires isEmail(email)
    requires 2 <= IsLength(nickname) <= 20 && 4 <= IsLength(password) <= 20
    ensures RegisterValid(RegisterBody(Text(email), Text(nickname), Text(password)), isEmail)
  {
    assert nickname != "" && password != "";
  }

  /** The first 72 bytes of 20 U+1F600 are the 72 bytes of 18 U+1F600. */
  lemma TruncatedPasswordMatches(salt: Salt)
    ensures BcryptCompare(seq(18, _ => Grin), BcryptHash(seq(20, _ => Grin), salt))
  {
    var password := seq(20, _ => Grin);
    var candidate := seq(18, _ => Grin);
    assert password == candidate + seq(2, _ => Grin);
    RepeatLength(Grin, 18);
    BcryptIgnoresTail(candidate, [], seq(2, _ => Grin), salt);
    assert candidate + [] == candidate;
  }

  /** U+0000 ends the key: "abcd" and "abcd", NUL, "abcd" are both
      accepted passwords, and either matches the digest of the other. */
  lemma NulSeparatedPasswordsCollide(email: string, isEmail: string -> bool, salt: Salt)
    requires isEmail(email)
    ensures var password := "abcd" + [0 as char] + "abcd";
      && RegisterValid(RegisterBody(Text(email), Text("kim"), Text("abcd")), isEmail)
      && RegisterValid(RegisterBody(Text(email), Text("kim"), Text(password)), isEmail)
      && password != "abcd"
      && BcryptCompare("abcd", BcryptHash(password, salt))
  {
    var password := "abcd" + [0 as char] + "abcd";
    NulSeparatedKeys();
    SameInputFromRepeatedKey("abcd", password, [97, 98, 99, 100, 0]);
    assert IsLength(password) == 9;
  }

  /** Two strings whose keys with their NUL are a key and that key written
      twice are read alike. */
  lemma SameInputFromRepeatedKey(s: string, t: string, k: seq<Byte>)
    requires |k| > 0 && BcryptKey(s) + [0] == k && BcryptKey(t) + [0] == k + k
    ensures BcryptInput(s) == BcryptInput(t)
  {
    CycleTwice(k, BcryptInputBytes);
  }

  /** The keys of the two passwords, byte by byte. */
  lemma NulSeparatedKeys()
    ensures BcryptKey("abcd") == [97, 98, 99, 100]
    ensures BcryptKey("abcd" + [0 as char] + "abcd") == [97, 98, 99, 100, 0, 97, 98, 99, 100]
  {
    assert Encode("abcd") == [97, 98, 99, 100];
    assert Encode([0 as char]) == [0];
    EncodeAppend("abcd" + [0 as char], "abcd");
    EncodeAppend("abcd", [0 as char]);
  }

  // ---------------------------------------------------------------------
  // 4. The nickname bound.  `@MaxLength(20)` measures with `isLength`,
  //    while the column counts every code point; the nickname "ab"
  //    followed by 254 U+FE0F passes validation, does not fit the column,
  //    and registration then fails with a server error.

  /** "ab" and 254 U+FE0F is an accepted nickname 256 characters wide. */
  lemma OverlongNicknamePassesValidation(email: string, isEmail: string -> bool)
    requires isEmail(email)
    ensures var nickname := "ab" + seq(254, _ => 0xFE0F as char);
      && RegisterValid(RegisterBody(Text(email), Text(nickname), Text("pass")), isEmail)
      && !FitsColumns(email, nickname)
  {
    SelectorPaddedNicknameAccepted(email, isEmail, 254);
  }

  // ---------------------------------------------------------------------
  // The intended registration rules for findings 3 and 4.

  /** The nickname bound the message of `@MaxLength(20)` announces: 20
      characters. */
  const NicknameLength: nat := 20

  /** The registration rules with the nickname bounded at 20 code points,
      and the password without U+0000 and below bcrypt's 72 bytes, so that
      its digest is matched by it alone. */
  predicate RegisterValidBounded(b: RegisterBody, isEmail: string -> bool) {
    && RegisterValid(b, isEmail)
    && |b.nickname.s| <= NicknameLength
    && Utf8Length(b.password.s) < BcryptInputBytes && !HasNul(b.password.s)
  }

  /** The validation with those bounds: everything it accepts was accepted
      before, every nickname it accepts fits its column, and every password
      it accepts is digested whole. */
  function ValidateRegisterBounded(b: RegisterBody, isEmail: string -> bool): (r: Option<RegisterDto>)
    ensures r.Some? <==> RegisterValidBounded(b, isEmail)
    ensures r.Some? ==> ValidateRegister(b, isEmail) == r
    ensures r.Some? ==> |r.value.nickname| <= TextColumnLength
    ensures r.Some? ==> Utf8Length(r.value.password) < BcryptInputBytes && !HasNul(r.value.password)
  {
    if RegisterValidBounded(b, isEmail) then ValidateRegister(b, isEmail) else None
  }

  /** Under these rules a login succeeds with the registered password, and
      with no other candidate free of U+0000. */
  lemma BoundedPasswordComparedWhole(b: RegisterBody, isEmail: string -> bool, candidate: string, salt: Salt)
    requires ValidateRegisterBounded(b, isEmail).Some?
    ensures var password := ValidateRegisterBounded(b, isEmail).value.password;
      && (candidate == password ==> BcryptCompare(candidate, BcryptHash(password, salt)))
      && (BcryptCompare(candidate, BcryptHash(password, salt)) ==> candidate == password || HasNul(candidate))
  {
    ShortSecretComparedWhole(ValidateRegisterBounded(b, isEmail).value.password, candidate, salt);
  }
}
