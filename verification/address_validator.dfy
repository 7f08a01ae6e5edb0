/** The syntactic check applied to a submitted Solana address before the
    ledger will consider it: a length window and a fixed Base58 alphabet. */
module AddressValidator {

  /** The 58 symbols an address may use, in code-point order, written as its
      three runs: the digits, the capital letters, the small letters. */
  const Base58Alphabet: string := "123456789" + "ABCDEFGHJKLMNPQRSTUVWXYZ" + "abcdefghijkmnopqrstuvwxyz"

  const MinLength: nat := 32
  const MaxLength: nat := 44

  /** The address check: the length lies in [MinLength, MaxLength] and every
      character is one of the alphabet's symbols. No trimming happens here. */
  predicate IsValidSolanaAddress(address: string) {
    if !(MinLength <= |address| <= MaxLength) then false
    else forall i | 0 <= i < |address| :: address[i] in Base58Alphabet
  }

  /** An independent description of the alphabet by character ranges: the
      digits 1-9, the capital letters other than I and O, and the small
      letters other than l. */
  predicate IsBase58Char(c: char) {
    ('1' <= c <= '9') || ('A' <= c <= 'Z' && c != 'I' && c != 'O') || ('a' <= c <= 'z' && c != 'l')
  }

  /** The alphabet and the range description agree on every character. */
  lemma AlphabetIsCharClass(c: char)
    ensures |Base58Alphabet| == 58
    ensures c in Base58Alphabet <==> IsBase58Char(c)
  {
    assert c in "123456789" <==> '1' <= c <= '9';
    assert c in "ABCDEFGHJKLMNPQRSTUVWXYZ" <==> 'A' <= c <= 'Z' && c != 'I' && c != 'O';
    assert c in "abcdefghijkmnopqrstuvwxyz" <==> 'a' <= c <= 'z' && c != 'l';
  }

  /** The check holds exactly when the length is in the window and every
      character falls in one of the alphabet's ranges. */
  lemma ValidIff(address: string)
    ensures IsValidSolanaAddress(address) <==>
      MinLength <= |address| <= MaxLength &&
      forall i | 0 <= i < |address| :: IsBase58Char(address[i])
  {
    forall i | 0 <= i < |address| ensures address[i] in Base58Alphabet <==> IsBase58Char(address[i]) {
      AlphabetIsCharClass(address[i]);
    }
  }

  /** A valid address never holds one of the look-alike characters 0, O, I, l. */
  lemma ValidExcludesLookalikes(address: string)
    requires IsValidSolanaAddress(address)
    ensures '0' !in address && 'O' !in address && 'I' !in address && 'l' !in address
  {
    ValidIff(address);
  }

  /** Boundary cases of the length window, on strings made of an allowed symbol. */
  lemma LengthBoundaries()
    ensures !IsValidSolanaAddress(seq(31, _ => '1'))
    ensures IsValidSolanaAddress(seq(32, _ => '1'))
    ensures IsValidSolanaAddress(seq(44, _ => 'z'))
    ensures !IsValidSolanaAddress(seq(45, _ => 'z'))
  {
    AlphabetIsCharClass('1');
    AlphabetIsCharClass('z');
  }
}
