/** Constants of the kernel's configuration that several parts share. */
module KernelConfig {

  /** Bytes of a buffer for a path or a name. */
  const MAX_PATH := 108
}
