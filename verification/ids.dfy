/** The USB identifiers of the supported glasses and the per-product HID tables:
    which interface carries the IMU, which the MCU, and how large an IMU report is. */
module Ids {

  const VendorId: int := 0x3318

  const Air: int := 0x0424
  const Air2: int := 0x0428
  const Air2Pro: int := 0x0432
  const Air2Ultra: int := 0x0426

  /** The known product ids, in the order the driver lists them. */
  const ProductIds: seq<int> := [Air, Air2, Air2Pro, Air2Ultra]

  const ImuInterfaceIds: map<int, int> := map[Air := 3, Air2 := 3, Air2Pro := 3, Air2Ultra := 2]
  const McuInterfaceIds: map<int, int> := map[Air := 4, Air2 := 4, Air2Pro := 4, Air2Ultra := 0]
  const ImuMaxPayloadSizes: map<int, int> := map[Air := 64, Air2 := 64, Air2Pro := 64, Air2Ultra := 512]

  /** `isXrealProductId`: membership in the product list. */
  predicate IsXrealProductId(productId: int) {
    productId in ProductIds
  }

  /** Every table has an entry for exactly the listed products. */
  lemma {:induction false} TablesCoverProducts(productId: int)
    ensures IsXrealProductId(productId) <==> productId in ImuInterfaceIds
    ensures IsXrealProductId(productId) <==> productId in McuInterfaceIds
    ensures IsXrealProductId(productId) <==> productId in ImuMaxPayloadSizes
  {
    assert ProductIds[0] == Air && ProductIds[1] == Air2;
    assert ProductIds[2] == Air2Pro && ProductIds[3] == Air2Ultra;
  }

  /** `xrealImuInterfaceId`: the table entry, or -1 for an unknown product. */
  function ImuInterfaceId(productId: int): (iface: int)
    ensures IsXrealProductId(productId) <==> iface != -1
    ensures iface == -1 || iface == 2 || iface == 3
    ensures iface == 2 <==> productId == Air2Ultra
  {
    TablesCoverProducts(productId);
    if IsXrealProductId(productId) then ImuInterfaceIds[productId] else -1
  }

  /** `xrealMcuInterfaceId`: the table entry, or -1 for an unknown product. */
  function McuInterfaceId(productId: int): (iface: int)
    ensures IsXrealProductId(productId) <==> iface != -1
    ensures iface == -1 || iface == 0 || iface == 4
    ensures iface == 0 <==> productId == Air2Ultra
  {
    TablesCoverProducts(productId);
    if IsXrealProductId(productId) then McuInterfaceIds[productId] else -1
  }

  /** `xrealImuMaxPayloadSize`: the table entry, or 0 for an unknown product. */
  function ImuMaxPayloadSize(productId: int): (size: int)
    ensures IsXrealProductId(productId) <==> size != 0
    ensures size == 0 || size == 64 || size == 512
    ensures size == 512 <==> productId == Air2Ultra
  {
    TablesCoverProducts(productId);
    if IsXrealProductId(productId) then ImuMaxPayloadSizes[productId] else 0
  }

  /** The product list holds exactly the four glasses. */
  lemma {:induction false} KnownProducts(productId: int)
    ensures IsXrealProductId(productId)
            <==> productId == 0x0424 || productId == 0x0428 || productId == 0x0432 || productId == 0x0426
  {
    assert ProductIds[0] == Air && ProductIds[1] == Air2;
    assert ProductIds[2] == Air2Pro && ProductIds[3] == Air2Ultra;
  }

  /** The tables, product by product; every unknown id gets the sentinels. */
  lemma {:induction false} TableEntries(productId: int)
    ensures productId in {Air, Air2, Air2Pro} ==>
              ImuInterfaceId(productId) == 3 && McuInterfaceId(productId) == 4
              && ImuMaxPayloadSize(productId) == 64
    ensures productId == Air2Ultra ==>
              ImuInterfaceId(productId) == 2 && McuInterfaceId(productId) == 0
              && ImuMaxPayloadSize(productId) == 512
    ensures !IsXrealProductId(productId) ==>
              ImuInterfaceId(productId) == -1 && McuInterfaceId(productId) == -1
              && ImuMaxPayloadSize(productId) == 0
  {
    KnownProducts(productId);
  }

  /** On every known product the IMU and the MCU sit on distinct, real interfaces,
      and an IMU report has room for its 8-byte header and at least one data byte. */
  lemma {:induction false} TablesAreConsistent(productId: int)
    requires IsXrealProductId(productId)
    ensures 0 <= ImuInterfaceId(productId) && 0 <= McuInterfaceId(productId)
    ensures ImuInterfaceId(productId) != McuInterfaceId(productId)
    ensures ImuMaxPayloadSize(productId) > 8
  {
    KnownProducts(productId);
  }
}
