/**
 * The password manager front end (src/cli/password.rs): the complexity
 * policy, the length check, the random generator and the master-key file
 * that bootstraps or unlocks the manager.
 */
module Password {
  import opened Basics
  import Utf8
  import Encryption
  import C = Cipher

  const Lowercase: string := "abcdefghijklmnopqrstuvwxyz"
  const Uppercase: string := "ABCDEFGHIJKLMNOPQRSTUVWXYZ"
  const Digits: string := "0123456789"
  const Symbols: string := "!@#$%^&*()-_=+"

  /** The 76 characters a generated password is drawn from, in this order. */
  const Charset: string := Lowercase + Uppercase + Digits + Symbols

  /** The largest `usize` on a 64-bit target. */
  const UsizeMax: int := 0xFFFF_FFFF_FFFF_FFFF

  // ---------------------------------------------------------------------
  // Complexity policy

  /** The four classes a password must each draw from. */
  datatype CharClass = Lower | Upper | Digit | Special

  predicate IsLower(c: char) { 'a' <= c <= 'z' }
  predicate IsUpper(c: char) { 'A' <= c <= 'Z' }
  predicate IsAsciiDigit(c: char) { '0' <= c <= '9' }

  /**
   * The one class `c` counts for, tested in the policy's order: lowercase,
   * then uppercase, then ASCII digit; anything else is special.
   */
  function ClassOf(c: char): (k: CharClass)
    ensures k == Lower <==> IsLower(c)
    ensures k == Upper <==> IsUpper(c)
    ensures k == Digit <==> IsAsciiDigit(c)
    ensures k == Special <==> !IsLower(c) && !IsUpper(c) && !IsAsciiDigit(c)
  {
    if IsLower(c) then Lower
    else if IsUpper(c) then Upper
    else if IsAsciiDigit(c) then Digit
    else Special
  }

  /** Some character of `s` is of class `k`. */
  predicate HasClass(s: string, k: CharClass) {
    exists i :: 0 <= i < |s| && ClassOf(s[i]) == k
  }

  /** The policy: at least one character of each of the four classes. */
  predicate IsComplex(s: string) {
    HasClass(s, Lower) && HasClass(s, Upper) && HasClass(s, Digit) && HasClass(s, Special)
  }

  /** The four classes are disjoint, so a password that meets the policy has at least four characters. */
  lemma ComplexHasFourCharacters(s: string)
    requires IsComplex(s)
    ensures 4 <= |s|
  {
    var i :| 0 <= i < |s| && ClassOf(s[i]) == Lower;
    var j :| 0 <= j < |s| && ClassOf(s[j]) == Upper;
    var k :| 0 <= k < |s| && ClassOf(s[k]) == Digit;
    var l :| 0 <= l < |s| && ClassOf(s[l]) == Special;
  }

  lemma HasClassSnoc(s: string, c: char, k: CharClass)
    ensures HasClass(s + [c], k) <==> HasClass(s, k) || ClassOf(c) == k
  {
    if HasClass(s, k) {
      var i :| 0 <= i < |s| && ClassOf(s[i]) == k;
      assert (s + [c])[i] == s[i];
    }
    if ClassOf(c) == k {
      assert (s + [c])[|s|] == c;
    }
    if HasClass(s + [c], k) && ClassOf(c) != k {
      var i :| 0 <= i < |s + [c]| && ClassOf((s + [c])[i]) == k;
      assert i < |s| && s[i] == (s + [c])[i];
    }
  }

  /**
   * `is_valid_password`: one pass over the characters raising a flag per
   * class; the password is valid exactly when it meets the policy.
   */
  method IsValidPassword(password: string) returns (valid: bool)
    ensures valid <==> IsComplex(password)
  {
    var hasLower, hasUpper, hasDigit, hasSpecial := false, false, false, false;
    for i := 0 to |password|
      invariant hasLower <==> HasClass(password[..i], Lower)
      invariant hasUpper <==> HasClass(password[..i], Upper)
      invariant hasDigit <==> HasClass(password[..i], Digit)
      invariant hasSpecial <==> HasClass(password[..i], Special)
    {
      var c := password[i];
      assert password[..i + 1] == password[..i] + [c];
      HasClassSnoc(password[..i], c, Lower);
      HasClassSnoc(password[..i], c, Upper);
      HasClassSnoc(password[..i], c, Digit);
      HasClassSnoc(password[..i], c, Special);
      if IsLower(c) {
        hasLower := true;
      } else if IsUpper(c) {
        hasUpper := true;
      } else if IsAsciiDigit(c) {
        hasDigit := true;
      } else {
        hasSpecial := true;
      }
    }
    assert password[..|password|] == password;
    valid := hasLower && hasUpper && hasDigit && hasSpecial;
  }

  /** The policy's own example password meets it. */
  lemma ExamplePasswordIsComplex()
    ensures IsComplex("Password123!")
  {
    var p := "Password123!";
    assert ClassOf(p[1]) == Lower;
    assert ClassOf(p[0]) == Upper;
    assert ClassOf(p[8]) == Digit;
    assert ClassOf(p[11]) == Special;
  }

  /** A password without a digit, however long, fails the policy. */
  lemma NoDigitIsNotComplex(s: string)
    requires forall i :: 0 <= i < |s| ==> !IsAsciiDigit(s[i])
    ensures !IsComplex(s)
  {
  }

  // ---------------------------------------------------------------------
  // Length check

  predicate AllDigits(s: string) {
    forall i :: 0 <= i < |s| ==> IsAsciiDigit(s[i])
  }

  /** The value of a run of decimal digits, most significant first. */
  function DigitsValue(ds: string): nat
    requires AllDigits(ds)
  {
    if ds == [] then 0
    else DigitsValue(ds[..|ds| - 1]) * 10 + (ds[|ds| - 1] as int - '0' as int)
  }

  /**
   * `str::parse::<usize>`: an optional leading `+` and then one or more
   * decimal digits whose value fits in a `usize`; anything else, the empty
   * string and a `-` sign included, is refused.
   */
  function ParseUsize(s: string): (r: Option<nat>)
    ensures r.Some? ==> r.value <= UsizeMax
    ensures r.Some? ==> s != [] && s != "+"
    ensures r.Some? ==> forall i :: 0 <= i < |s| ==> IsAsciiDigit(s[i]) || (i == 0 && s[i] == '+')
    ensures r.Some? && AllDigits(s) ==> r.value == DigitsValue(s)
    ensures r.Some? && |s| > 0 && s[0] == '+' ==> AllDigits(s[1..]) && r.value == DigitsValue(s[1..])
  {
    var digits := if |s| > 0 && s[0] == '+' then s[1..] else s;
    if digits == [] || !AllDigits(digits) then None
    else if DigitsValue(digits) <= UsizeMax then Some(DigitsValue(digits))
    else None
  }

  /**
   * `is_valid_password_length`: the text parses as a `usize` between 8 and
   * 64 inclusive.
   */
  function IsValidPasswordLength(length: string): (ok: bool)
    ensures ok <==> exists n :: 8 <= n <= 64 && ParseUsize(length) == Some(n)
    ensures ParseUsize(length).None? ==> !ok
  {
    match ParseUsize(length)
    case None => false
    case Some(n) => 8 <= n <= 64
  }

  /**
   * Every run of digits whose value fits in a `usize` parses to that value,
   * with or without a leading `+`.
   */
  lemma ParseUsizeComplete(ds: string)
    requires ds != [] && AllDigits(ds) && DigitsValue(ds) <= UsizeMax
    ensures ParseUsize(ds) == Some(DigitsValue(ds))
    ensures ParseUsize("+" + ds) == Some(DigitsValue(ds))
  {
    assert ("+" + ds)[1..] == ds;
  }

  /**
   * The length check on any run of digits, signed or not, leading zeros
   * allowed: it passes exactly when the digits' value is 8 to 64.
   */
  lemma LengthTextCheck(ds: string)
    requires ds != [] && AllDigits(ds)
    ensures IsValidPasswordLength(ds) <==> 8 <= DigitsValue(ds) <= 64
    ensures IsValidPasswordLength("+" + ds) <==> 8 <= DigitsValue(ds) <= 64
  {
    assert ("+" + ds)[1..] == ds;
    if DigitsValue(ds) <= UsizeMax {
      ParseUsizeComplete(ds);
    }
  }

  /** "+16" and "016" are accepted, as `parse::<usize>` reads both as 16; "-16" is refused. */
  lemma SignedAndPaddedLengths()
    ensures IsValidPasswordLength("+16") && IsValidPasswordLength("016")
    ensures !IsValidPasswordLength("-16")
  {
    assert DigitsValue("016") == 16 by {
      assert "016"[..2] == "01" && "01"[..1] == "0";
    }
    assert DigitsValue("16") == 16 by {
      assert "16"[..1] == "1";
    }
    LengthTextCheck("016");
    LengthTextCheck("16");
    assert "+" + "16" == "+16";
  }

  /** `usize::to_string`: the decimal digits of `n`, without sign or leading zeros. */
  function DecimalString(n: nat): (s: string)
    ensures s != [] && AllDigits(s)
    ensures n > 0 ==> s[0] != '0'
  {
    if n < 10 then [('0' as int + n) as char]
    else DecimalString(n / 10) + [('0' as int + n % 10) as char]
  }

  lemma {:induction false} DecimalStringValue(n: nat)
    ensures DigitsValue(DecimalString(n)) == n
  {
    if n >= 10 {
      var s := DecimalString(n);
      assert s[..|s| - 1] == DecimalString(n / 10);
      DecimalStringValue(n / 10);
    }
  }

  /** Printing a length and parsing it back gives the length. */
  lemma ParsePrinted(n: nat)
    requires n <= UsizeMax
    ensures ParseUsize(DecimalString(n)) == Some(n)
  {
    DecimalStringValue(n);
  }

  /**
   * The length check on a length the generator is given: it passes exactly
   * for 8 to 64.
   */
  lemma LengthCheck(n: nat)
    ensures IsValidPasswordLength(DecimalString(n)) <==> 8 <= n <= 64
  {
    DecimalStringValue(n);
    assert DecimalString(n)[0] != '+';
  }

  /** The length check's own test (`test_is_valid_password_length`): "16" is an acceptable length. */
  lemma SixteenIsValidLength()
    ensures IsValidPasswordLength("16")
  {
    assert DecimalString(16) == "16";
    LengthCheck(16);
  }

  // ---------------------------------------------------------------------
  // Generator

  /** The character a random byte selects: the byte modulo the charset size. */
  function CharFor(b: byte): (c: char)
    ensures c == Charset[b as int % 76]
  {
    Charset[b as int % |Charset|]
  }

  /**
   * The selection is biased: 256 bytes over 76 characters leave the first
   * 28 characters four bytes each and the other 48 three. For example 'a'
   * is hit by four bytes and '+' by only three.
   */
  lemma ModuloBias(b: byte)
    ensures CharFor(b) == 'a' <==> b in {0, 76, 152, 228}
    ensures CharFor(b) == '+' <==> b in {75, 151, 227}
  {
    var k := b as int % 76;
    assert b as int == b as int / 76 * 76 + k;
    CharsetAt(k);
    if k == 75 {
      assert CharFor(b) == Symbols[13];
    }
  }

  /** The candidate a run of random bytes spells, one character per byte. */
  function Chars(bs: seq<byte>): (s: string)
    ensures |s| == |bs|
    ensures forall i :: 0 <= i < |bs| ==> s[i] == CharFor(bs[i])
  {
    seq(|bs|, i requires 0 <= i < |bs| => CharFor(bs[i]))
  }

  /** Why generation gave no password. */
  datatype GenerateError =
    | InvalidLength
      /** The random stream ran out before a candidate met the policy. */
    | Exhausted

  /**
   * The generator's retry loop for an acceptance test `accept`: checks the
   * length, spells a candidate from the next `length` bytes, and returns it
   * when `accept` holds, else starts over on the rest of the stream. Returns
   * the bytes it did not consume. The length test is stated by its outcome,
   * 8 to 64 (LengthCheck); GeneratePassword makes it on the printed length
   * as the source does.
   */
  function Retried(accept: string -> bool, length: nat, rng: seq<byte>): (r: (Result<string, GenerateError>, seq<byte>))
    ensures r.0.Ok? ==> |r.0.value| == length
    decreases |rng|
  {
    if !(8 <= length <= 64) then (Err(InvalidLength), rng)
    else if |rng| < length then (Err(Exhausted), rng)
    else
      var candidate := Chars(rng[..length]);
      if accept(candidate) then (Ok(candidate), rng[length..])
      else Retried(accept, length, rng[length..])
  }

  /** `generate_password(Some(length))` over the random stream `rng`: the retry loop with the policy. */
  function Generated(length: nat, rng: seq<byte>): (r: (Result<string, GenerateError>, seq<byte>))
    ensures r.0.Ok? ==> |r.0.value| == length
  {
    Retried(IsComplex, length, rng)
  }

  /**
   * `generate_password`: the candidate is built one byte at a time and
   * checked with `is_valid_password`; a weak one is thrown away and the
   * generator calls itself again.
   */
  method GeneratePassword(length: nat, rng: seq<byte>) returns (r: Result<string, GenerateError>, rest: seq<byte>)
    ensures (r, rest) == Generated(length, rng)
    decreases |rng|
  {
    LengthCheck(length);
    if !IsValidPasswordLength(DecimalString(length)) {
      return Err(InvalidLength), rng;
    }
    if |rng| < length {
      return Err(Exhausted), rng;
    }
    var password: string := [];
    for i := 0 to length
      invariant |password| == i
      invariant forall j :: 0 <= j < i ==> password[j] == CharFor(rng[j])
    {
      password := password + [CharFor(rng[i])];
    }
    assert password == Chars(rng[..length]);
    var valid := IsValidPassword(password);
    if valid {
      return Ok(password), rng[length..];
    }
    r, rest := GeneratePassword(length, rng[length..]);
  }

  /**
   * A generated password has the requested length, meets the policy and
   * uses only charset characters.
   */
  lemma {:induction false} GeneratedIsComplex(length: nat, rng: seq<byte>)
    ensures var r := Generated(length, rng).0;
      r.Ok? ==>
        && |r.value| == length
        && IsComplex(r.value)
        && (forall i :: 0 <= i < |r.value| ==> r.value[i] in Charset)
    decreases |rng|
  {
    if 8 <= length <= 64 && |rng| >= length {
      if !IsComplex(Chars(rng[..length])) {
        GeneratedIsComplex(length, rng[length..]);
      }
    }
  }

  /** `p` is spelled by the `length` bytes of `rng` just before its suffix `rest`. */
  ghost predicate DrawnLast(p: string, length: nat, rng: seq<byte>, rest: seq<byte>) {
    && |rest| + length <= |rng|
    && p == Chars(rng[|rng| - |rest| - length..|rng| - |rest|])
  }

  /** What is left of the stream after the generator drew from it. */
  function Leftover(length: nat, rng: seq<byte>): seq<byte> {
    Generated(length, rng).1
  }

  /** The generator only consumes: what it leaves of the stream is a suffix of it. */
  lemma {:induction false} LeftoverIsSuffix(length: nat, rng: seq<byte>)
    ensures |Leftover(length, rng)| <= |rng|
    ensures Leftover(length, rng) == rng[|rng| - |Leftover(length, rng)|..]
    decreases |rng|
  {
    if 8 <= length <= 64 && |rng| >= length {
      var tail := rng[length..];
      if !IsComplex(Chars(rng[..length])) {
        LeftoverIsSuffix(length, tail);
        var rest := Leftover(length, tail);
        assert rng[|rng| - |rest|..] == tail[|tail| - |rest|..];
      }
    }
  }

  /**
   * A password the generator returns is spelled by the `length` bytes just
   * before what it leaves of the stream.
   */
  lemma GeneratedFromLastDraw(length: nat, rng: seq<byte>)
    requires Generated(length, rng).0.Ok?
    ensures DrawnLast(Generated(length, rng).0.value, length, rng, Leftover(length, rng))
  {
    assert Generated(length, rng) == Retried(IsComplex, length, rng);
    RetriedFromLastDraw(IsComplex, length, rng);
  }

  /** The same for any acceptance test. */
  lemma {:induction false} RetriedFromLastDraw(accept: string -> bool, length: nat, rng: seq<byte>)
    requires Retried(accept, length, rng).0.Ok?
    ensures DrawnLast(Retried(accept, length, rng).0.value, length, rng, Retried(accept, length, rng).1)
    decreases |rng|
  {
    var tail := rng[length..];
    if accept(Chars(rng[..length])) {
      assert rng[0..length] == rng[..length];
    } else {
      RetriedFromLastDraw(accept, length, tail);
      var g := Retried(accept, length, tail);
      var k := |tail| - |g.1|;
      SliceOfSuffix(rng, length, k - length, k);
    }
  }

  lemma SliceOfSuffix(s: seq<byte>, a: nat, i: nat, j: nat)
    requires a <= |s| && i <= j <= |s| - a
    ensures s[a..][i..j] == s[a + i..a + j]
  {
    assert forall n :: 0 <= n < j - i ==> s[a..][i..j][n] == s[a + i + n];
  }

  /**
   * The length is refused exactly when it is outside 8 to 64, and then no
   * randomness is drawn.
   */
  lemma {:induction false} GeneratedRefusesLength(length: nat, rng: seq<byte>)
    ensures Generated(length, rng).0 == Err(InvalidLength) <==> !(8 <= length <= 64)
    ensures !(8 <= length <= 64) ==> Generated(length, rng).1 == rng
    decreases |rng|
  {
    if 8 <= length <= 64 && |rng| >= length && !IsComplex(Chars(rng[..length])) {
      GeneratedRefusesLength(length, rng[length..]);
    }
  }

  lemma LowercaseAt(k: nat)
    requires k < |Lowercase|
    ensures Lowercase[k] as int == 'a' as int + k
  {
  }

  lemma UppercaseAt(k: nat)
    requires k < |Uppercase|
    ensures Uppercase[k] as int == 'A' as int + k
  {
  }

  lemma DigitsAt(k: nat)
    requires k < |Digits|
    ensures Digits[k] as int == '0' as int + k
  {
  }

  lemma SymbolsAt(k: nat)
    requires k < |Symbols|
    ensures Symbols[k] as int < 0x80 && ClassOf(Symbols[k]) == Special
    ensures Symbols[k] == '+' <==> k == 13
  {
  }

  /**
   * The charset is four runs: 26 lowercase letters, 26 uppercase letters,
   * 10 digits and 14 special characters, all ASCII.
   */
  lemma CharsetAt(k: nat)
    requires k < |Charset|
    ensures |Charset| == 76
    ensures Charset[k] as int < 0x80
    ensures ClassOf(Charset[k]) == if k < 26 then Lower else if k < 52 then Upper else if k < 62 then Digit else Special
    ensures k < 26 ==> Charset[k] as int == 'a' as int + k
    ensures Charset[k] == '+' <==> k == 75
  {
    if k < 26 {
      CharsetLowerAt(k);
    } else if k < 52 {
      CharsetUpperAt(k);
    } else if k < 62 {
      CharsetDigitAt(k);
    } else {
      CharsetSymbolAt(k);
    }
  }

  lemma CharsetLowerAt(k: nat)
    requires k < 26
    ensures Charset[k] as int == 'a' as int + k
  {
    assert Charset[k] == (Lowercase + Uppercase)[k] == Lowercase[k];
    LowercaseAt(k);
  }

  lemma CharsetUpperAt(k: nat)
    requires 26 <= k < 52
    ensures Charset[k] as int == 'A' as int + (k - 26)
  {
    assert Charset[k] == (Lowercase + Uppercase)[k] == Uppercase[k - 26];
    UppercaseAt(k - 26);
  }

  lemma CharsetDigitAt(k: nat)
    requires 52 <= k < 62
    ensures Charset[k] as int == '0' as int + (k - 52)
  {
    assert Charset[k] == (Lowercase + Uppercase + Digits)[k] == Digits[k - 52];
    DigitsAt(k - 52);
  }

  lemma CharsetSymbolAt(k: nat)
    requires 62 <= k < 76
    ensures Charset[k] as int < 0x80 && ClassOf(Charset[k]) == Special
    ensures Charset[k] == '+' <==> k == 75
  {
    assert Charset[k] == Symbols[k - 62];
    SymbolsAt(k - 62);
  }

  /** A charset password is ASCII, so its length in bytes is its length in characters. */
  lemma {:induction false} CharsetByteLength(s: string)
    requires forall i :: 0 <= i < |s| ==> s[i] in Charset
    ensures |Utf8.Encode(s)| == |s|
  {
    if s != [] {
      var k :| 0 <= k < |Charset| && Charset[k] == s[0];
      CharsetAt(k);
      CharsetByteLength(s[1..]);
    }
  }

  /**
   * The generator's own example: a 16-character request that succeeds gives
   * a password of 16 bytes.
   */
  lemma SixteenCharacters(rng: seq<byte>)
    requires Generated(16, rng).0.Ok?
    ensures |Generated(16, rng).0.value| == 16
    ensures |Utf8.Encode(Generated(16, rng).0.value)| == 16
  {
    GeneratedIsComplex(16, rng);
    CharsetByteLength(Generated(16, rng).0.value);
  }

  /** The stream 0, 26, 52, 62, 1, 2, 3, 4, 9, whose first eight bytes hit every class, yields those eight characters at once. */
  lemma GeneratesFromFirstBytes()
    ensures Generated(8, [0, 26, 52, 62, 1, 2, 3, 4, 9]) == (Ok("aA0!bcde"), [9])
  {
    var rng: seq<byte> := [0, 26, 52, 62, 1, 2, 3, 4, 9];
    LengthCheck(8);
    assert rng[..8] == [0, 26, 52, 62, 1, 2, 3, 4];
    FirstDrawSpells();
    FirstDrawIsComplex();
    assert rng[8..] == [9];
  }

  lemma FirstDrawSpells()
    ensures Chars([0, 26, 52, 62, 1, 2, 3, 4]) == "aA0!bcde"
  {
    var bs: seq<byte> := [0, 26, 52, 62, 1, 2, 3, 4];
    assert Chars(bs) == [CharFor(0), CharFor(26), CharFor(52), CharFor(62), CharFor(1), CharFor(2), CharFor(3), CharFor(4)];
    CharForExamples();
  }

  lemma CharForExamples()
    ensures CharFor(0) == 'a' && CharFor(1) == 'b' && CharFor(2) == 'c'
    ensures CharFor(3) == 'd' && CharFor(4) == 'e'
    ensures CharFor(26) == 'A' && CharFor(52) == '0' && CharFor(62) == '!'
  {
    assert Charset[26] == Uppercase[0];
    assert Charset[52] == Digits[0];
    assert Charset[62] == Symbols[0];
  }

  lemma FirstDrawIsComplex()
    ensures IsComplex("aA0!bcde")
  {
    var p := "aA0!bcde";
    assert ClassOf(p[0]) == Lower && ClassOf(p[1]) == Upper;
    assert ClassOf(p[2]) == Digit && ClassOf(p[3]) == Special;
  }

  // ---------------------------------------------------------------------
  // Master key file and start-up

  /** The `master.key` file in the configuration directory: absent, or its bytes. */
  class MasterKeyFile {
    var contents: Option<seq<byte>>

    constructor (contents: Option<seq<byte>>)
      ensures this.contents == contents
    {
      this.contents := contents;
    }
  }

  /**
   * A running manager: the default generated length, the master password
   * that keys the database, and the encryption keyed by it.
   */
  datatype PasswordManager = PasswordManager(length: nat, dbKey: string, encryption: Encryption.Encryption)

  /** The manager a master password opens. */
  function ManagerFor(master: string): (m: PasswordManager)
    ensures m.length == 16 && m.dbKey == master && m.encryption.key == master
  {
    PasswordManager(16, master, Encryption.New(master))
  }

  datatype StartError =
    | InvalidMasterPassword
      /** Generating the first master password failed. */
    | GenerationFailed(cause: GenerateError)

  /**
   * `PasswordManager::new`. Without a master-key file, the master password
   * is generated (`generate`) or the one `entered`, and the file receives
   * that password encrypted under itself. With the file, the `entered`
   * password must decrypt the file's contents to itself.
   */
  method NewManager(file: MasterKeyFile, c: C.Cipher, generate: bool, entered: string, rng: seq<byte>)
      returns (r: Result<PasswordManager, StartError>)
    modifies file
    ensures old(file.contents).Some? ==>
      && file.contents == old(file.contents)
      && (r.Ok? <==> c.decrypt(entered, old(file.contents).value) == Some(entered))
      && (r.Ok? ==> r.value == ManagerFor(entered))
      && (r.Err? ==> r.error == InvalidMasterPassword)
    ensures old(file.contents).None? ==>
      var master := if generate then Generated(16, rng).0 else Ok(entered);
      && (master.Ok? ==> r == Ok(ManagerFor(master.value)) && file.contents == Some(c.encrypt(master.value, master.value)))
      && (master.Err? ==> r == Err(GenerationFailed(master.error)) && file.contents == None)
  {
    if file.contents.None? {
      var password: string;
      if generate {
        var g, _ := GeneratePassword(16, rng);
        if g.Err? {
          return Err(GenerationFailed(g.error));
        }
        password := g.value;
      } else {
        password := entered;
      }
      file.contents := Some(c.encrypt(password, password));
      r := Ok(ManagerFor(password));
    } else {
      var data := file.contents.value;
      match c.decrypt(entered, data)
      case None =>
        return Err(InvalidMasterPassword);
      case Some(decrypted) =>
        if decrypted != entered {
          return Err(InvalidMasterPassword);
        }
      r := Ok(ManagerFor(entered));
    }
  }

  /**
   * First start with a chosen master password, then a second start: with a
   * sound cipher the second start succeeds exactly when the same password
   * is entered again, and then opens the same manager.
   */
  method ChooseThenUnlock(c: C.Cipher, first: string, second: string)
      returns (r1: Result<PasswordManager, StartError>, r2: Result<PasswordManager, StartError>)
    requires c.RoundTrips() && c.NeverForges()
    ensures r1 == Ok(ManagerFor(first))
    ensures r2.Ok? <==> second == first
    ensures r2.Ok? ==> r2.value == r1.value
    ensures r2.Err? ==> r2.error == InvalidMasterPassword
  {
    var file := new MasterKeyFile(None);
    r1 := NewManager(file, c, false, first, []);
    r2 := NewManager(file, c, false, second, []);
    assert c.decrypt(second, c.encrypt(first, first)) in {None, Some(first)};
  }

  /**
   * First start with a generated master password, then a second start: it
   * succeeds exactly when the generated password is entered, which is
   * sixteen characters long and meets the policy.
   */
  method GenerateThenUnlock(c: C.Cipher, rng: seq<byte>, second: string)
      returns (r1: Result<PasswordManager, StartError>, r2: Result<PasswordManager, StartError>)
    requires c.RoundTrips() && c.NeverForges()
    ensures r1.Ok? <==> Generated(16, rng).0.Ok?
    ensures r1.Ok? ==> |r1.value.dbKey| == 16 && IsComplex(r1.value.dbKey)
    ensures r1.Err? ==> r1.error == GenerationFailed(Exhausted)
    ensures r1.Ok? ==> (r2.Ok? <==> second == r1.value.dbKey)
  {
    var file := new MasterKeyFile(None);
    r1 := NewManager(file, c, true, "", rng);
    GeneratedIsComplex(16, rng);
    GeneratedRefusesLength(16, rng);
    assert r1.Err? ==> r1.error.cause != InvalidLength;
    r2 := NewManager(file, c, false, second, []);
    if r1.Ok? {
      var p := r1.value.dbKey;
      assert c.decrypt(second, c.encrypt(p, p)) in {None, Some(p)};
    }
  }
}
