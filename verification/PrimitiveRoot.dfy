/** The script's root 7 is primitive as far as powers of two go: a climb to 7^((p - 1) / 2) modulo p. */
module PrimitiveRoot {
  import opened Arith

  /** The script's modulus (the scalar field of BLS12-381) and root. */
  const MODULUS: int := 0x73eda753299d7d483339d80809a1d80553bda402fffe5bfeffffffff00000001
  const PRIMITIVE_ROOT_OF_UNITY: int := 7

  /** The root has order p - 1 as far as powers of two are concerned. */
  predicate Primitive(p: int, root: int)
    requires p > 1
  {
    Pow(root, p - 1) % p == 1 && Pow(root, (p - 1) / 2) % p != 1
  }

  predicate PowerIs(m: int, b: int, e: nat, x: int)
    requires m > 1
  {
    Pow(b, e) % m == x
  }

  /** Appending the base-4 digits of `d` to an exponent of 1 leads to `x`; `k` is the place value they fill. */
  ghost predicate LeadsTo(m: int, b: int, k: nat, d: nat, x: int)
    requires m > 1
  {
    forall e: nat {:trigger PowerIs(m, b, e, 1)} :: PowerIs(m, b, e, 1) ==> k * e >= 0 && PowerIs(m, b, k * e + d, x)
  }

  lemma SquareStep(m: int, b: int, e: nat, y: int)
    requires m > 1 && Pow(b, e) % m == y % m
    ensures Pow(b, 2 * e) % m == (y * y) % m
  {
    PowAdds(b, e, e);
    ModMul(Pow(b, e), y, Pow(b, e), m);
    ModMul(Pow(b, e), y, y, m);
  }

  lemma DigitStep(m: int, b: int, e: nat, y: int, digit: nat)
    requires m > 1 && PowerIs(m, b, e, y)
    ensures Pow(b, 4 * e + digit) % m == ((y * y) * (y * y) * Pow(b, digit)) % m
  {
    ModMod(Pow(b, e), m);
    SquareStep(m, b, e, y);
    SquareStep(m, b, 2 * e, y * y);
    PowAdds(b, 4 * e, digit);
    ModMul(Pow(b, 4 * e), (y * y) * (y * y), Pow(b, digit), m);
  }

  lemma FourthPower(y: int, c: int)
    ensures (y * y) * (y * y) * c == y * y * y * y * c
  {
  }

  /** One more digit of the exponent: two squarings and a multiplication. */
  lemma Climb(m: int, b: int, k: nat, d: nat, y: int, digit: nat, c: int, x: int)
    returns (k': nat, d': nat, y': int)
    requires m > 1 && LeadsTo(m, b, k, d, y) && c == Pow(b, digit) && (y * y * y * y * c) % m == x
    ensures k' == 4 * k && d' == 4 * d + digit && y' == x && LeadsTo(m, b, k', d', x)
  {
    k', d', y' := 4 * k, 4 * d + digit, x;
    forall e: nat | PowerIs(m, b, e, 1) ensures k' * e >= 0 && PowerIs(m, b, k' * e + d', x) {
      DigitStep(m, b, k * e + d, y, digit);
      FourthPower(y, c);
      assert k' * e == 4 * (k * e);
    }
  }

  /** A climb to -1 at exponent (m - 1) / 2 shows the base to be primitive. */
  lemma MinusOneAtHalf(m: int, b: int, k: nat)
    requires m > 2 && m % 2 == 1 && LeadsTo(m, b, k, (m - 1) / 2, m - 1)
    ensures Primitive(m, b)
  {
    var h := (m - 1) / 2;
    ModSmall(1, m);
    assert PowerIs(m, b, 0, 1) && k * 0 == 0;
    assert PowerIs(m, b, h, m - 1);
    ModSmall(m - 1, m);
    SquareStep(m, b, h, m - 1);
    ModFromWitness((m - 1) * (m - 1), 1, m, m - 2);
    assert 2 * h == m - 1;
  }

  // The base-4 digits of (p - 1) / 2, highest first, the powers of 7 to those digits, and where they lead.

  lemma Climb16()
    ensures LeadsTo(MODULUS, PRIMITIVE_ROOT_OF_UNITY,
                    0x100000000,
                    0xe7db4ea6,
                    0x4a4342be41db382d13bf9d685b748943d7ec403ffbbdb1713beb7ef3a117e74d)
  {
    var p, b := MODULUS, PRIMITIVE_ROOT_OF_UNITY;
    assert LeadsTo(p, b, 1, 0, 1);
    var k, d, y := 1, 0, 1;
    k, d, y := Climb(p, b, k, d, y, 3, 343, 0x157);
    k, d, y := Climb(p, b, k, d, y, 2, 49, 0x9de93ece51);
    k, d, y := Climb(p, b, k, d, y, 1, 7, 0x1036f6acec0a9267336bedc3cb691fc6560f3eac7);
    k, d, y := Climb(p, b, k, d, y, 3, 343, 0x5f2f2162559dfa1f2f4cccb53f5d652363d25eb7518208f7024f35e1d2594d2a);
    k, d, y := Climb(p, b, k, d, y, 3, 343, 0x2c5fd98c7cfb65f0fe7fcb2cc715b7e2ca8f4cd2642c8b6e06b3a30ec2071b61);
    k, d, y := Climb(p, b, k, d, y, 1, 7, 0x168b7447940a719f9928ad14fe9742781ce72b198c1e7431da98ffc29fc4fe8d);
    k, d, y := Climb(p, b, k, d, y, 2, 49, 0x53c5a21b548247a0cffb860ddc3ea50481b0cbb30657bd75d68d1f33396974d8);
    k, d, y := Climb(p, b, k, d, y, 3, 343, 0x31ed05a4b5a97f2df0f7cc4f0fa59e88733558ac2b0f7714e96aa0e0b66ddfec);
    k, d, y := Climb(p, b, k, d, y, 1, 7, 0x374b93daacfd81e316eb2fa3f8316284baaaf4a942491f5a87faffb2a4d63a7f);
    k, d, y := Climb(p, b, k, d, y, 0, 1, 0x1b44b008abe0ffe35c2931988169a12e15e592311690485a820a16a5ce3d4a23);
    k, d, y := Climb(p, b, k, d, y, 3, 343, 0x59fadb69eb65cd5d0e6b53b7381065319a9dccab8c21d0856f10208d214ce6ed);
    k, d, y := Climb(p, b, k, d, y, 2, 49, 0x3d42c015b9731b6b006b65b3b9697406164c8511094824959c1ab6d4166c238f);
    k, d, y := Climb(p, b, k, d, y, 2, 49, 0x3b8abac0a0508976400f55dc64b9ece7d8bffebf1d60d02c8c02f99a5b7c11e3);
    k, d, y := Climb(p, b, k, d, y, 2, 49, 0x48bccb4f9cc5affa1fdc0c6b419701037309763e138f8bb412e62ae446811f7c);
    k, d, y := Climb(p, b, k, d, y, 1, 7, 0x1cf82c7c2c808ada47eb7d638bcbe85fd8df51d00eb5dd70112f03b3d9ebb6f9);
    k, d, y := Climb(p, b, k, d, y, 2, 49, 0x4a4342be41db382d13bf9d685b748943d7ec403ffbbdb1713beb7ef3a117e74d);
  }

  lemma Climb32()
    ensures LeadsTo(MODULUS, PRIMITIVE_ROOT_OF_UNITY,
                    0x10000000000000000,
                    0xe7db4ea6533afa90,
                    0xf606151c11b1949d8abf1ef9615093ea8b23573acea35a45060e5092bbf0d13)
  {
    var p, b := MODULUS, PRIMITIVE_ROOT_OF_UNITY;
    Climb16();
    var k := 0x100000000;
    var d := 0xe7db4ea6;
    var y := 0x4a4342be41db382d13bf9d685b748943d7ec403ffbbdb1713beb7ef3a117e74d;
    k, d, y := Climb(p, b, k, d, y, 1, 7, 0x3f508f8cfe1a4b91c009de72883a17b9a88678923b391010860c88a211d7ef56);
    k, d, y := Climb(p, b, k, d, y, 1, 7, 0x2bf74d3bc6df25563b47001329fde936212a5ae45bac1e97a75ae0a5be492155);
    k, d, y := Climb(p, b, k, d, y, 0, 1, 0x36ef7333dd7b7307eceafaad0cfc05c2332aad95387b8e8b0f6eff4e87ea7b6a);
    k, d, y := Climb(p, b, k, d, y, 3, 343, 0x16cfba9c094f917b95dbfe3ff98fb3d851de6192fe114990137bc0b050f63510);
    k, d, y := Climb(p, b, k, d, y, 0, 1, 0x4480af9b7b7ff903ff0f8b5207bebb452d650d8f7e72eefdfd6551a15e72eb94);
    k, d, y := Climb(p, b, k, d, y, 3, 343, 0x241cffad989b419b2add257f435abd512dc5774792a6c3f83ef96206e88446bc);
    k, d, y := Climb(p, b, k, d, y, 2, 49, 0x1c46cd5ff042a3f2c1942cf619821375237cd460505b7045093af89106c96caf);
    k, d, y := Climb(p, b, k, d, y, 2, 49, 0x6ac06c2977cb2bd86ae9fc9d5d30c1feacd60a110038a8d39d1e81f6289fdf1);
    k, d, y := Climb(p, b, k, d, y, 3, 343, 0x4b25aa25bf3a5365c5d239ddffb9582a293bea645f000014bb41290f4a5c95c6);
    k, d, y := Climb(p, b, k, d, y, 3, 343, 0xa36a7bfa1ff64a4d46e3181f5ede353e59d8a1e2501848755227ea8de5ac3fd);
    k, d, y := Climb(p, b, k, d, y, 2, 49, 0x62bd49d6a967036cb4d14c43f3d105baddcf9f1ae21a7d41d27bf20e520a2de7);
    k, d, y := Climb(p, b, k, d, y, 2, 49, 0x1370e4a40f16dccf4d6ff9033b5ea60b71fe6c4fc962a295a6f65f7d638cfb0f);
    k, d, y := Climb(p, b, k, d, y, 2, 49, 0x2cadab13ccd053f73c2c2ea980e0e0e60d1ce519a1b00ed165297d3dac87bdf3);
    k, d, y := Climb(p, b, k, d, y, 1, 7, 0x34eaaeb69cb14860d5555962a74e24c56ea363604854b3bbf708133121bf25c5);
    k, d, y := Climb(p, b, k, d, y, 0, 1, 0x17fc8bd7563524fe3397dc3c76eb0776b63ad229d44a7a4a4782844bce28f377);
    k, d, y := Climb(p, b, k, d, y, 0, 1, 0xf606151c11b1949d8abf1ef9615093ea8b23573acea35a45060e5092bbf0d13);
  }

  lemma Climb48()
    ensures LeadsTo(MODULUS, PRIMITIVE_ROOT_OF_UNITY,
                    0x1000000000000000000000000,
                    0xe7db4ea6533afa906673b010,
                    0x32a7a6c8e4b8c1f494e63188df95010cbec7747f255e3fa0e48070ad9d54728c)
  {
    var p, b := MODULUS, PRIMITIVE_ROOT_OF_UNITY;
    Climb32();
    var k := 0x10000000000000000;
    var d := 0xe7db4ea6533afa90;
    var y := 0xf606151c11b1949d8abf1ef9615093ea8b23573acea35a45060e5092bbf0d13;
    k, d, y := Climb(p, b, k, d, y, 1, 7, 0x2115c0bd2fc1f55cbf351ddeddccefb71d04fe6fb8a8e5d95e6231c2527fa5ba);
    k, d, y := Climb(p, b, k, d, y, 2, 49, 0xb2c1f4810dad0ec7f2f231db85f71ee45e44f129929e0905d31136cbcca5849);
    k, d, y := Climb(p, b, k, d, y, 1, 7, 0x2dea62102876c9a327f1ac6f1a6201003db2a846b0405b6fa2a0112c540dfadc);
    k, d, y := Climb(p, b, k, d, y, 2, 49, 0x43f48c5708a33201f9fb3f00cf5af7b6dc0d3b090e3d76e4f56dc6c694e7ea6);
    k, d, y := Climb(p, b, k, d, y, 1, 7, 0x311c5c60a655ae947cdf422828ef19a06955de76f796c8a3d0bc4b8cf95f7108);
    k, d, y := Climb(p, b, k, d, y, 3, 343, 0x56d7c1a4d4d2287ad1bf0446a0b2587ccd35a34f3c19576305802cddd5dc54ac);
    k, d, y := Climb(p, b, k, d, y, 0, 1, 0x512a68a8850b2d9ecb62ff2806a4fb337c9ab19237a0bd40f8bbc59225c34133);
    k, d, y := Climb(p, b, k, d, y, 3, 343, 0x68f88d0e9390ceceb0f142cc94620eab360e2e11b1fe6fba02cec8387304240a);
    k, d, y := Climb(p, b, k, d, y, 2, 49, 0x2e6144b3cf2479966e8a710f168bdfb60ccd0f5b87aeef7adcdeccd266e3c7f3);
    k, d, y := Climb(p, b, k, d, y, 3, 343, 0x6ffd0b343b96f823c4b84496a4006f637d978a4d3e8e385ba32ebddfd650253c);
    k, d, y := Climb(p, b, k, d, y, 0, 1, 0x4ba4f0606cbc7659db4ce9317c17b20ba7309d83ec5320de1d5bb7e3378f6c3c);
    k, d, y := Climb(p, b, k, d, y, 0, 1, 0x40bb189fa7853177be1b717cb5c37c23a102d9d735e1c36d1178da4b48d2ad7f);
    k, d, y := Climb(p, b, k, d, y, 0, 1, 0x171d26dbaea5c2256ccd3f5f12a78df2858a0305bf9655504ef7a5b9e0d0b3f4);
    k, d, y := Climb(p, b, k, d, y, 1, 7, 0x6b738d8c2c2051279c28a4f64c4c5a7b61155eab50ee8bbdcac4c25030e52d25);
    k, d, y := Climb(p, b, k, d, y, 0, 1, 0x65fba48248cfa07b0089eec1083c4d1e155571236a010f36cb661d0d9a84ac6e);
    k, d, y := Climb(p, b, k, d, y, 0, 1, 0x32a7a6c8e4b8c1f494e63188df95010cbec7747f255e3fa0e48070ad9d54728c);
  }

  lemma Climb64()
    ensures LeadsTo(MODULUS, PRIMITIVE_ROOT_OF_UNITY,
                    0x100000000000000000000000000000000,
                    0xe7db4ea6533afa906673b0101343b00a,
                    0x4afa712d075402ec0609d66677e9eaaf77835db413a5acf2c8ffa3e444e71e95)
  {
    var p, b := MODULUS, PRIMITIVE_ROOT_OF_UNITY;
    Climb48();
    var k := 0x1000000000000000000000000;
    var d := 0xe7db4ea6533afa906673b010;
    var y := 0x32a7a6c8e4b8c1f494e63188df95010cbec7747f255e3fa0e48070ad9d54728c;
    k, d, y := Climb(p, b, k, d, y, 0, 1, 0x21eef18e4a3f1d15aa70186cc5cfe68c85139026e1b50875430ba2be0964b7ed);
    k, d, y := Climb(p, b, k, d, y, 1, 7, 0x277858c582d02b2e1d4b3a76e87a9686194256cb7502cdf9b19a77042c0ca3b5);
    k, d, y := Climb(p, b, k, d, y, 0, 1, 0x26575417f0f423ec4f3976f136a1570acad2deef33148a0b0e30a27e58816e4d);
    k, d, y := Climb(p, b, k, d, y, 3, 343, 0x678844de69a2bbb3d141d1d35f83a06c970687ecaf014cac3a4da567e522a14f);
    k, d, y := Climb(p, b, k, d, y, 1, 7, 0x3192ccac0f9d5e3149effcdfe9ff234b01fa7b420ca97aaad866b360a0e9c3be);
    k, d, y := Climb(p, b, k, d, y, 0, 1, 0x6eb79e28cdee77b50e862e3875d23a432e8ac4381cb5fe2ed3b947f57502ad87);
    k, d, y := Climb(p, b, k, d, y, 0, 1, 0x588655b593b1713b6407350d57b4cac1bd161cc4220a36335796a0ff127a67b0);
    k, d, y := Climb(p, b, k, d, y, 3, 343, 0xdcebc63e441a1974acf9142d6351527e8c17a9f1c01a41c4f3823940ac41df2);
    k, d, y := Climb(p, b, k, d, y, 2, 49, 0x62154442b39cb29156740224fbe1bd3283ef2dad2921d943ca05e70f05fd787d);
    k, d, y := Climb(p, b, k, d, y, 3, 343, 0x2873cb14c30a80537c3c252f651a6fd9649924b25d2e4644c99f67cb3fa06cb4);
    k, d, y := Climb(p, b, k, d, y, 0, 1, 0x50dfe55262f7e3ee52b477a95910713c4d22886ca3932800baddf4455468dc4f);
    k, d, y := Climb(p, b, k, d, y, 0, 1, 0x68732d0388e373c65da15272d471a835cb72a8913802ce6c58c826650e2a352a);
    k, d, y := Climb(p, b, k, d, y, 0, 1, 0x1328337bf6ca49047c61efbf7adddceb342e7df06dc9c7b4c12d56462312063f);
    k, d, y := Climb(p, b, k, d, y, 0, 1, 0x49458f22b49a4020e2f5002ce05a683e570713539fed464d54cd8d1379a1c05f);
    k, d, y := Climb(p, b, k, d, y, 2, 49, 0x466e972d0f77d066ac885813adc75112b2ee0e8ed26d53279ba339357a1a735f);
    k, d, y := Climb(p, b, k, d, y, 2, 49, 0x4afa712d075402ec0609d66677e9eaaf77835db413a5acf2c8ffa3e444e71e95);
  }

  lemma Climb80()
    ensures LeadsTo(MODULUS, PRIMITIVE_ROOT_OF_UNITY,
                    0x10000000000000000000000000000000000000000,
                    0xe7db4ea6533afa906673b0101343b00aa77b4805,
                    0x4832f13e4dbcaf6fe91038598379cb2e681a86ae6e941ea7392099ac97d81ece)
  {
    var p, b := MODULUS, PRIMITIVE_ROOT_OF_UNITY;
    Climb64();
    var k := 0x100000000000000000000000000000000;
    var d := 0xe7db4ea6533afa906673b0101343b00a;
    var y := 0x4afa712d075402ec0609d66677e9eaaf77835db413a5acf2c8ffa3e444e71e95;
    k, d, y := Climb(p, b, k, d, y, 2, 49, 0x58f30768c66fca0b139f170806f6c74c28cf368dec28893cf1a560b6ff713027);
    k, d, y := Climb(p, b, k, d, y, 2, 49, 0x4483ad9886a88ec9b0f6de4025828ff09617ba50cba53c867e67ae22799e043f);
    k, d, y := Climb(p, b, k, d, y, 1, 7, 0x3bc26937a84e77d4e3082a7a3e0dc98d24cbd6d6a9590dd4d37e41f668409137);
    k, d, y := Climb(p, b, k, d, y, 3, 343, 0x4cc78b016e386e57efdac5254ef585f435313a1b4679745d57fc79b645b4800a);
    k, d, y := Climb(p, b, k, d, y, 1, 7, 0x1d2d555196d33ff39c9e9c880ab22ec9c3f995244d3120f88ee21f33d2a90c7a);
    k, d, y := Climb(p, b, k, d, y, 3, 343, 0x358267d0f6bbce8df0f44bf8ed7c2b640f1a537566fec1d1d4163fbb9a3f68f7);
    k, d, y := Climb(p, b, k, d, y, 2, 49, 0x178ea7307287f758ff30b98f02d2131fb6033e0799fcc5ae330db43ba26b5faa);
    k, d, y := Climb(p, b, k, d, y, 3, 343, 0x25a791cef9eb7ffb5175fdd83dbebef3f6697f2092a75feb0867896523c95022);
    k, d, y := Climb(p, b, k, d, y, 1, 7, 0x2e5f07f080c2b4042c76875cc351e90bb279e253a7a256d8170bf4dbf4ed2443);
    k, d, y := Climb(p, b, k, d, y, 0, 1, 0x27e0f33565d37759db9996f2280cdd71745a6c7da83838e8e8d62212dfd2b038);
    k, d, y := Climb(p, b, k, d, y, 2, 49, 0x7205e8da58b947b854fb19df41301b8336f92989920185637fc532a8adb12dd8);
    k, d, y := Climb(p, b, k, d, y, 0, 1, 0xdbac8c795a2afb28b99897c440e8b5d598124fc7949ae6c9e22672d26f8266f);
    k, d, y := Climb(p, b, k, d, y, 0, 1, 0x44633f1c72e20230f2968c9799080229e5a16bb0b6923b1e16c87be82ae52f78);
    k, d, y := Climb(p, b, k, d, y, 0, 1, 0x684594ecbac2d167caca9e34c14f0907b6772b421f748baf79d2bcc0db4cbad3);
    k, d, y := Climb(p, b, k, d, y, 1, 7, 0x1813fe0575d7206edfbd90fe5c8d2aa267ed0b4a871947c93a8696f4665eb53b);
    k, d, y := Climb(p, b, k, d, y, 1, 7, 0x4832f13e4dbcaf6fe91038598379cb2e681a86ae6e941ea7392099ac97d81ece);
  }

  lemma Climb96()
    ensures LeadsTo(MODULUS, PRIMITIVE_ROOT_OF_UNITY,
                    0x1000000000000000000000000000000000000000000000000,
                    0xe7db4ea6533afa906673b0101343b00aa77b4805fffcb7fd,
                    0x16d86605868fd7523cea0115bf93631dc4242ce495f592bd5f21c1678e342c12)
  {
    var p, b := MODULUS, PRIMITIVE_ROOT_OF_UNITY;
    Climb80();
    var k := 0x10000000000000000000000000000000000000000;
    var d := 0xe7db4ea6533afa906673b0101343b00aa77b4805;
    var y := 0x4832f13e4dbcaf6fe91038598379cb2e681a86ae6e941ea7392099ac97d81ece;
    k, d, y := Climb(p, b, k, d, y, 3, 343, 0x113af6afe088342f6f2826cade2ca336232fcb1ce7d186ca662e407037291d93);
    k, d, y := Climb(p, b, k, d, y, 3, 343, 0x5b071fa880831036fbc4256485fdb3f2463d94a2f4d137458bbd5103a80fb88e);
    k, d, y := Climb(p, b, k, d, y, 3, 343, 0x171437c8f275d8186c21197245d294c755e02eeef48cabd5731630fdd5a2cc08);
    k, d, y := Climb(p, b, k, d, y, 3, 343, 0x41ede3040ec0fc4f8a2d3ec0f05742a8443c2f86e735fc8d977ca60af5984026);
    k, d, y := Climb(p, b, k, d, y, 3, 343, 0x2098e54c84982319b9eb075e29e7bae7660c954e9bb4e096b4b85df6aed09ddb);
    k, d, y := Climb(p, b, k, d, y, 3, 343, 0x317a8f04fc8018ba61bdd8e0eef5ee39e1aac8f1a5024175cba177be2f256291);
    k, d, y := Climb(p, b, k, d, y, 3, 343, 0x429ad134fdb4b28f7f052bfbb7b58a2a0f0c1c1fb191ae9dd66e9ff3a330171b);
    k, d, y := Climb(p, b, k, d, y, 0, 1, 0x23bbcc9da65d400f76ea7acde128db770f2b998030c205db3e75a11b1bd62950);
    k, d, y := Climb(p, b, k, d, y, 2, 49, 0x37b070aaf746e9933a4a8dd7aafcaeb0ef112f81dfe0616b096846eae8f5107d);
    k, d, y := Climb(p, b, k, d, y, 3, 343, 0x6e0e219aad9c342e95ec0d260e7579c27b16d320b67216293e02067f62233957);
    k, d, y := Climb(p, b, k, d, y, 1, 7, 0x4aee37e50f7a59f413e0da79adc08d763dcad0320c5032ae0c7c18408b5d080e);
    k, d, y := Climb(p, b, k, d, y, 3, 343, 0x6a4d18e1911d87615944a6c354bbbd89ee1f8e63fa8c447abc125d64be4c2c4d);
    k, d, y := Climb(p, b, k, d, y, 3, 343, 0x3a5924a2c900b31437d27b7efdbd9da731a096f1aea33e32ddd0b6ca66963057);
    k, d, y := Climb(p, b, k, d, y, 3, 343, 0x4ab992c73818dea0779a9fa49730c2f4d230f8a5586f2b373439c4a50c26ce35);
    k, d, y := Climb(p, b, k, d, y, 3, 343, 0xb546fa63282cadebccf23bd60c154c752042035082273dcbb49e8cc211751d7);
    k, d, y := Climb(p, b, k, d, y, 1, 7, 0x16d86605868fd7523cea0115bf93631dc4242ce495f592bd5f21c1678e342c12);
  }

  lemma Climb112()
    ensures LeadsTo(MODULUS, PRIMITIVE_ROOT_OF_UNITY,
                    0x100000000000000000000000000000000000000000000000000000000,
                    0xe7db4ea6533afa906673b0101343b00aa77b4805fffcb7fdfffffffe,
                    0x4b5371495990693fad1715b02e5713b5f070bb00e28a193d63e7cb4906ffc93f)
  {
    var p, b := MODULUS, PRIMITIVE_ROOT_OF_UNITY;
    Climb96();
    var k := 0x1000000000000000000000000000000000000000000000000;
    var d := 0xe7db4ea6533afa906673b0101343b00aa77b4805fffcb7fd;
    var y := 0x16d86605868fd7523cea0115bf93631dc4242ce495f592bd5f21c1678e342c12;
    k, d, y := Climb(p, b, k, d, y, 3, 343, 0x65cbca2bdf7e544017395c1b098f2dab13f6f2abea094e254e9a3bdba12f26c2);
    k, d, y := Climb(p, b, k, d, y, 3, 343, 0x2830313b75fb6057eb50cf70fbbb281510f762084d0d7348c6c4887333b6088e);
    k, d, y := Climb(p, b, k, d, y, 3, 343, 0x6146002a548181ba9f59101feae3c60edc1db4abe282131d1912073d593fc337);
    k, d, y := Climb(p, b, k, d, y, 3, 343, 0x1b0ad53f2ec78d1c0f4e852380b46da18c84b7f830d51d261ed564ce13b0526d);
    k, d, y := Climb(p, b, k, d, y, 3, 343, 0x699271a8ff31e42afda22624ea54deb43360d73e80598c79af69f88a96a7ae9d);
    k, d, y := Climb(p, b, k, d, y, 3, 343, 0x5325ccc985e86a60ad53d1a53e3970e48b4ff02bcafe1ec96cfcf8f39b6d49cf);
    k, d, y := Climb(p, b, k, d, y, 3, 343, 0x182377ca97afa6d4766e11644a6d618507ee022ddfab9633bd5b568acb513b7d);
    k, d, y := Climb(p, b, k, d, y, 3, 343, 0x3881f4546dc97958d0f1ef613a4c08d8b4c3c5e33e3e8adbe406daa23dbabc1);
    k, d, y := Climb(p, b, k, d, y, 3, 343, 0x2748cb207baab6b3a3af5c17b6a878b458fd03cc59a3dc5f189652b44e636123);
    k, d, y := Climb(p, b, k, d, y, 3, 343, 0x14d5e6163531bb5e483b52ffdd116bc1cc6afc44ffb8045e6c7d746bfc0a9f99);
    k, d, y := Climb(p, b, k, d, y, 3, 343, 0x3440cbe64c2f8a8f37adad9722881a4aad7ad4813c1497a67535d143b5ea6a3b);
    k, d, y := Climb(p, b, k, d, y, 3, 343, 0x54bd3a5530f22f10b387dd3ac305aaa4e5343354ac98d45557d01d86b93319be);
    k, d, y := Climb(p, b, k, d, y, 3, 343, 0x2b28891fa3d1ce5746b187e30476b7e4c7b5324ed26c870d1ba7d4bf5c3a8257);
    k, d, y := Climb(p, b, k, d, y, 3, 343, 0xde76ce74e31c711c81d3b6b82efd355014853ed0e31ecf89b710c57e417dae6);
    k, d, y := Climb(p, b, k, d, y, 3, 343, 0x57061ce7c24b0f64209adc161a13584e676456b6c21fb148c1e61efca21620c3);
    k, d, y := Climb(p, b, k, d, y, 2, 49, 0x4b5371495990693fad1715b02e5713b5f070bb00e28a193d63e7cb4906ffc93f);
  }

  lemma Climb127()
    ensures LeadsTo(MODULUS, PRIMITIVE_ROOT_OF_UNITY,
                    0x4000000000000000000000000000000000000000000000000000000000000000,
                    0x39f6d3a994cebea4199cec0404d0ec02a9ded2017fff2dff7fffffff80000000,
                    0x73eda753299d7d483339d80809a1d80553bda402fffe5bfeffffffff00000000)
  {
    var p, b := MODULUS, PRIMITIVE_ROOT_OF_UNITY;
    Climb112();
    var k := 0x100000000000000000000000000000000000000000000000000000000;
    var d := 0xe7db4ea6533afa906673b0101343b00aa77b4805fffcb7fdfffffffe;
    var y := 0x4b5371495990693fad1715b02e5713b5f070bb00e28a193d63e7cb4906ffc93f;
    k, d, y := Climb(p, b, k, d, y, 0, 1, 0xc83ea7744bf1bee8da40c1ef2bb459884d37b826214abc6474650359d8e211b);
    k, d, y := Climb(p, b, k, d, y, 0, 1, 0x23397a9300f8f98bece8ea224f31d25db94f1101b1d7a628e2d0a7869f0319ed);
    k, d, y := Climb(p, b, k, d, y, 0, 1, 0x19fe632fd3287390454dc1edc61a1a3c0ba12bb3da64ca5ce32ef844e11a51e);
    k, d, y := Climb(p, b, k, d, y, 0, 1, 0x73560252aa0655b25121af06a3b51e3cc631ffb2585a72db5616c57de0ec9eae);
    k, d, y := Climb(p, b, k, d, y, 0, 1, 0x47c8b5817018af4fc70d0874b0691d4e46b3105f04db5844cd3979122d3ea03a);
    k, d, y := Climb(p, b, k, d, y, 0, 1, 0x520e587a724a6955df625e80d0adef90ad8e16e84419c750194e8c62ecb38d9d);
    k, d, y := Climb(p, b, k, d, y, 0, 1, 0x224262332d8acbf4473a2eef772c33d6cd7f2bd6d0711b7d08692405f3b70f10);
    k, d, y := Climb(p, b, k, d, y, 0, 1, 0x3291357ee558b50d483405417a0cbe39c8d5f51db3f32699fbd047e11279bb6e);
    k, d, y := Climb(p, b, k, d, y, 0, 1, 0x485d512737b1da3d2ccddea2972e89ed146b58bc434906ac6fdd00bfc78c8967);
    k, d, y := Climb(p, b, k, d, y, 0, 1, 0x6d031f1b5c49c83409f1ca610a08f16655ea6811be9c622d4a838b5d59cd79e5);
    k, d, y := Climb(p, b, k, d, y, 0, 1, 0x95166525526a65439feec240d80689fd697168a3a6000fe4541b8ff2ee0434e);
    k, d, y := Climb(p, b, k, d, y, 0, 1, 0x6898111413588742b7c68b4d7fdd60d098d0caac87f5713c5130c2c1660125be);
    k, d, y := Climb(p, b, k, d, y, 0, 1, 0x50e0903a157988bab4bcd40e22f55448bf6e88fb4c38fb8a360c60997369df4e);
    k, d, y := Climb(p, b, k, d, y, 0, 1, 0x345766f603fa66e78c0625cd70d77ce2b38b21c28713b7007228fd3397743f7a);
    k, d, y := Climb(p, b, k, d, y, 0, 1, 0x73eda753299d7d483339d80809a1d80553bda402fffe5bfeffffffff00000000);
  }

  /** 7^((p - 1) / 2) is -1 modulo p, so the root passes. */
  lemma RootIsPrimitive()
    ensures Primitive(MODULUS, PRIMITIVE_ROOT_OF_UNITY)
  {
    Climb127();
    var p, b := MODULUS, PRIMITIVE_ROOT_OF_UNITY;
    MinusOneAtHalf(p, b, 0x4000000000000000000000000000000000000000000000000000000000000000);
  }
}
