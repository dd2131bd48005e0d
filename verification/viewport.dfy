/**
 * Viewport constants and the integer helpers the page's layout code shares.
 */
module Viewport {

  /** Widest viewport, in pixels, treated as mobile. */
  const MobileMaxWidth: int := 768

  function Max(a: int, b: int): int { if a < b then b else a }
  function Min(a: int, b: int): int { if a < b then a else b }
}
