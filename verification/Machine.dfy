/** Value types shared by the models of the kernel's components. */
module Machine {
  datatype Option<+T> = None | Some(value: T)

  newtype byte = n: int | 0 <= n < 256

  /** The size of a page and of a physical frame. */
  const PAGE := 4096

  /** The start of the page or frame an address lies in. */
  function PageBase(a: nat): nat { a - a % PAGE }
}
