/** Version numbers 0xMMmmppbb (boot_version.c). */
module Version {
  import opened Bytes

  datatype Order = LESS | EQUAL | GREATER

  /** The order of the unsigned words. */
  function Compare(left: word, right: word): Order {
    if left < right then LESS else if left > right then GREATER else EQUAL
  }

  /** BootVersion_Compare: part by part from the major number down agrees with
    * unsigned order of the whole word. */
  method CompareParts(left: word, right: word) returns (order: Order)
    ensures order == Compare(left, right)
  {
    hide ByteOf;
    WordOfBytes(left);
    WordOfBytes(right);
    var lane := 3;
    while true
      invariant 0 <= lane <= 3
      invariant lane < 3 ==> ByteOf(left, 3) == ByteOf(right, 3)
      invariant lane < 2 ==> ByteOf(left, 2) == ByteOf(right, 2)
      invariant lane < 1 ==> ByteOf(left, 1) == ByteOf(right, 1)
      decreases lane
    {
      var leftPart, rightPart := ByteOf(left, lane), ByteOf(right, lane);
      if leftPart < rightPart {
        return LESS;
      }
      if leftPart > rightPart {
        return GREATER;
      }
      if lane == 0 {
        break;
      }
      lane := lane - 1;
    }
    return EQUAL;
  }
}
