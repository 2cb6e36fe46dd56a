/** Sizes and the data nonce of src/wifibroadcast.hpp. */
module WireFormat {
  import opened Bytes

  const WIFI_MTU := 4045
  const IEEE80211_HEADER := 24
  const BLOCK_HEADER := 20       // wblock_hdr_t
  const PACKET_HEADER := 3       // wpacket_hdr_t: flags, big-endian packet_size
  const AEAD_BYTES := 16
  const MAX_FEC_PAYLOAD := WIFI_MTU - IEEE80211_HEADER - BLOCK_HEADER - AEAD_BYTES
  const MAX_PAYLOAD_SIZE := MAX_FEC_PAYLOAD - PACKET_HEADER
  const FEC_ONLY := 1            // WFB_PACKET_FEC_ONLY
  const MAX_BLOCK := 0x1_0000_0000_0000  // 2^48 block numbers
  const BUFFER_SIZE := RoundUpSimd(MAX_FEC_PAYLOAD)

  /** ZFEX_ROUND_UP_SIMD */
  function RoundUpSimd(x: nat): (r: nat)
    ensures x <= r < x + 16 && r % 16 == 0
  {
    (x + 15) / 16 * 16
  }

  /** source_node in bits 63..56, block number in bits 55..8, fragment number in bits 7..0. */
  function MakeDataNonce(node: Byte, block: nat, frag: Byte): (nonce: nat)
  {
    node * 0x100_0000_0000_0000 + block % MAX_BLOCK * 0x100 + frag
  }

  function NonceSourceNode(nonce: nat): nat { nonce / 0x100_0000_0000_0000 }

  function NonceBlock(nonce: nat): nat { nonce / 0x100 % MAX_BLOCK }

  function NonceFragment(nonce: nat): nat { nonce % 0x100 }

  /** The fields come back; the block number does exactly when it fits in 48 bits. */
  lemma NonceRoundTrip(node: Byte, block: nat, frag: Byte)
    ensures var nonce := MakeDataNonce(node, block, frag);
            && nonce < 0x1_0000_0000_0000_0000
            && NonceSourceNode(nonce) == node && NonceFragment(nonce) == frag
            && (NonceBlock(nonce) == block <==> block < MAX_BLOCK)
            && nonce / 0x100_0000_0000_0000 == node && nonce / 0x100 % MAX_BLOCK == block % MAX_BLOCK && nonce % 0x100 == frag
  {
    var b := block % MAX_BLOCK;
    var nonce := MakeDataNonce(node, block, frag);
    var high := node * MAX_BLOCK + b;
    assert nonce == high * 0x100 + frag;
    assert nonce / 0x100 == high && nonce % 0x100 == frag;
    assert high / MAX_BLOCK == node && high % MAX_BLOCK == b;
  }

  /** Different (node, block, fragment) triples get different nonces. */
  lemma NonceInjective(node: Byte, block: nat, frag: Byte, node': Byte, block': nat, frag': Byte)
    requires block < MAX_BLOCK && block' < MAX_BLOCK
    requires MakeDataNonce(node, block, frag) == MakeDataNonce(node', block', frag')
    ensures node == node' && block == block' && frag == frag'
  {
    NonceRoundTrip(node, block, frag);
    NonceRoundTrip(node', block', frag');
  }
}
