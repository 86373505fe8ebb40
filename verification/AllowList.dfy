// The list of validators that a zero-height export does not jail.
module AllowList {
  import opened Common
  import Staking

  /** ValAddressFromBech32, ValAddress.String and AccAddressFromBech32. */
  datatype AddressCodec = AddressCodec(
    parse: string -> Option<Staking.Addr>,
    format: Staking.Addr -> string,
    parseAccount: string -> Option<Staking.Addr>)

  /** The validators jailed by an allow list, which is compared as spelt: an empty list jails nobody. */
  ghost function JailedBy(codec: AddressCodec, jailAllowedAddrs: seq<string>,
                          addrs: set<Staking.Addr>): set<Staking.Addr> {
    set a | a in addrs && |jailAllowedAddrs| > 0 && codec.format(a) !in jailAllowedAddrs
  }

  /** Some entry of the list is an address of the validator. */
  ghost predicate Names(codec: AddressCodec, jailAllowedAddrs: seq<string>, a: Staking.Addr) {
    exists s <- jailAllowedAddrs :: codec.parse(s) == Some(a)
  }

  /** For any list: it protects every validator it names exactly when, for each entry that is
      the address of a validator, the canonical spelling of that address is an entry too. */
  lemma ListProtectsNamed(codec: AddressCodec, jailAllowedAddrs: seq<string>, addrs: set<Staking.Addr>)
    ensures (forall a <- addrs | Names(codec, jailAllowedAddrs, a) ::
               a !in JailedBy(codec, jailAllowedAddrs, addrs)) <==>
            (forall s <- jailAllowedAddrs | codec.parse(s).Some? && codec.parse(s).value in addrs ::
               codec.format(codec.parse(s).value) in jailAllowedAddrs)
  {
  }

  // ----- Upper-case spellings -----

  function ToUpper(s: string): (r: string)
    ensures |r| == |s|
  {
    seq(|s|, i requires 0 <= i < |s| => if 'a' <= s[i] <= 'z' then s[i] - 'a' + 'A' else s[i])
  }

  const VALIDATOR_ADDRESS_PREFIX := "echofivaloper"

  ghost predicate IsValidatorAddress(a: Staking.Addr) {
    1 <= |a| <= 255 && forall b <- a :: b < 256
  }

  /** What BIP-173 asks of a codec ("Uppercase/lowercase" under "Bech32"), for the prefix of the
      application: encoders write lower case, and decoders also take all of it in upper case. */
  ghost predicate IsBech32(codec: AddressCodec) {
    forall a: Staking.Addr | IsValidatorAddress(a) ::
      && VALIDATOR_ADDRESS_PREFIX <= codec.format(a)
      && codec.parse(codec.format(a)) == Some(a)
      && codec.parse(ToUpper(codec.format(a))) == Some(a)
  }

  // ----- The assumption can be met: a plain code with no letters after the prefix -----

  function PlainFormat(a: Staking.Addr): (r: string) {
    VALIDATOR_ADDRESS_PREFIX + seq(|a|, i requires 0 <= i < |a| => (256 + a[i] % 256) as char)
  }

  function PlainParse(s: string): (r: Option<Staking.Addr>) {
    if |s| < |VALIDATOR_ADDRESS_PREFIX| then None
    else
      var data := s[|VALIDATOR_ADDRESS_PREFIX|..];
      Some(seq(|data|, i requires 0 <= i < |data| => if data[i] as int < 256 then 0 else data[i] as int - 256))
  }

  lemma PlainParses(a: Staking.Addr, s: string)
    requires IsValidatorAddress(a) && (s == PlainFormat(a) || s == ToUpper(PlainFormat(a)))
    ensures PlainParse(s) == Some(a)
  {
    var n := |VALIDATOR_ADDRESS_PREFIX|;
    forall i | 0 <= i < |a| ensures PlainParse(s).value[i] == a[i] {
      assert a[i] in a;
      assert PlainFormat(a)[n + i] == (256 + a[i] % 256) as char;
      assert s[n..][i] == s[n + i];
    }
    assert PlainParse(s).value == a;
  }

  lemma SomeCodecIsBech32()
    ensures exists codec :: IsBech32(codec)
  {
    var codec := AddressCodec(PlainParse, PlainFormat, PlainParse);
    forall a: Staking.Addr | IsValidatorAddress(a)
      ensures codec.parse(codec.format(a)) == codec.parse(ToUpper(codec.format(a))) == Some(a)
    {
      PlainParses(a, PlainFormat(a));
      PlainParses(a, ToUpper(PlainFormat(a)));
    }
    assert IsBech32(codec);
  }

  /** A list protects the validators it names in lower case only: one whose address is an entry
      in upper case alone is named, its entry parses, and it is jailed. */
  lemma UpperCaseEntryJailed(codec: AddressCodec, jailAllowedAddrs: seq<string>, addrs: set<Staking.Addr>,
                             a: Staking.Addr)
    requires IsBech32(codec) && IsValidatorAddress(a) && a in addrs
    requires ToUpper(codec.format(a)) in jailAllowedAddrs && codec.format(a) !in jailAllowedAddrs
    ensures Names(codec, jailAllowedAddrs, a) && a in JailedBy(codec, jailAllowedAddrs, addrs)
  {
  }

  /** The input: the list whose one entry is the upper-case spelling of a validator's address. */
  lemma UpperCaseListFails(codec: AddressCodec, a: Staking.Addr)
    requires IsBech32(codec) && IsValidatorAddress(a)
    ensures var list := [ToUpper(codec.format(a))];
            && (forall s <- list :: codec.parse(s).Some?)
            && Names(codec, list, a) && a in JailedBy(codec, list, {a})
  {
    var list := [ToUpper(codec.format(a))];
    assert codec.format(a)[0] == VALIDATOR_ADDRESS_PREFIX[0] == 'e';
    assert list[0][0] == 'E';
    UpperCaseEntryJailed(codec, list, {a}, a);
  }
}
